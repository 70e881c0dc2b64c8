/** The shell's grammar on tokens: command trees, how to print them, and the
    parser of sh.c with the characters taken away. */
module ShellGrammar {

  const MAXARGS := 10

  /** A word of the line: its first position and the one behind its last. */
  datatype Span = Span(q: nat, eq: nat)

  /** '+' stands for ">>". */
  datatype Token = Word(w: Span) | Sym(c: char)

  /** One redirection: a file to read from, or to write to. */
  datatype Redirection = Redirection(file: Span, out: bool)

  datatype Cmd = Exec(argv: seq<Span>) | Redir(cmd: Cmd, to: Redirection) | Pipe(left: Cmd, right: Cmd)
      | List(left: Cmd, right: Cmd) | Back(cmd: Cmd)

  datatype Result = Ok(cmd: Cmd, rest: seq<Token>) | Panic(why: string)

  datatype Reds = Reds(list: seq<Redirection>, rest: seq<Token>) | NoFile

  predicate Starts(ts: seq<Token>, c: char) {
    |ts| > 0 && ts[0] == Sym(c)
  }

  predicate RedirNext(ts: seq<Token>) {
    Starts(ts, '<') || Starts(ts, '>') || Starts(ts, '+')
  }

  predicate ArgsEnd(ts: seq<Token>) {
    ts == [] || Starts(ts, '|') || Starts(ts, ')') || Starts(ts, '&') || Starts(ts, ';')
  }

  /** The redirections wrapped around a command, the first one innermost. */
  function Wrap(c: Cmd, rs: seq<Redirection>): Cmd {
    if rs == [] then c else Redir(Wrap(c, rs[..|rs| - 1]), rs[|rs| - 1])
  }

  /** parseredirs. */
  function TakeReds(rs: seq<Redirection>, ts: seq<Token>): (r: Reds)
    ensures r.Reds? ==> |r.rest| <= |ts| && !RedirNext(r.rest)
    decreases |ts|
  {
    if !RedirNext(ts) then Reds(rs, ts)
    else if |ts| < 2 || !ts[1].Word? then NoFile
    else TakeReds(rs + [Redirection(ts[1].w, ts[0] != Sym('<'))], ts[2..])
  }

  /** The argument loop of parseexec. */
  function TakeArgs(argv: seq<Span>, rs: seq<Redirection>, ts: seq<Token>): (r: Result)
    ensures r.Ok? ==> |r.rest| <= |ts|
    decreases |ts|
  {
    if ArgsEnd(ts) then Ok(Wrap(Exec(argv), rs), ts)
    else if !ts[0].Word? then Panic("syntax")
    else if |argv| + 1 >= MAXARGS then Panic("too many args")
    else
      match TakeReds(rs, ts[1..])
      case NoFile => Panic("missing file for redirection")
      case Reds(list, rest) => TakeArgs(argv + [ts[0].w], list, rest)
  }

  /** parseexec, with parseblock for a parenthesis. */
  function ReadExec(ts: seq<Token>): (r: Result)
    ensures r.Ok? ==> |r.rest| <= |ts|
    decreases |ts|, 0
  {
    if Starts(ts, '(') then
      match ReadLine(ts[1..])
      case Panic(why) => Panic(why)
      case Ok(c, rest) =>
        if !Starts(rest, ')') then Panic("syntax - missing )")
        else
          match TakeReds([], rest[1..])
          case NoFile => Panic("missing file for redirection")
          case Reds(list, rest') => Ok(Wrap(c, list), rest')
    else
      match TakeReds([], ts)
      case NoFile => Panic("missing file for redirection")
      case Reds(list, rest) => TakeArgs([], list, rest)
  }

  function ReadPipe(ts: seq<Token>): (r: Result)
    ensures r.Ok? ==> |r.rest| <= |ts|
    decreases |ts|, 1
  {
    match ReadExec(ts)
    case Panic(why) => Panic(why)
    case Ok(l, rest) =>
      if !Starts(rest, '|') then Ok(l, rest)
      else
        match ReadPipe(rest[1..])
        case Panic(why) => Panic(why)
        case Ok(r, rest') => Ok(Pipe(l, r), rest')
  }

  function TakeBacks(c: Cmd, ts: seq<Token>): (r: (Cmd, seq<Token>))
    ensures |r.1| <= |ts| && !Starts(r.1, '&')
    decreases |ts|
  {
    if Starts(ts, '&') then TakeBacks(Back(c), ts[1..]) else (c, ts)
  }

  function ReadLine(ts: seq<Token>): (r: Result)
    ensures r.Ok? ==> |r.rest| <= |ts|
    decreases |ts|, 2
  {
    match ReadPipe(ts)
    case Panic(why) => Panic(why)
    case Ok(c, rest) =>
      var (d, rest') := TakeBacks(c, rest);
      if !Starts(rest', ';') then Ok(d, rest')
      else
        match ReadLine(rest'[1..])
        case Panic(why) => Panic(why)
        case Ok(r, rest'') => Ok(List(d, r), rest'')
  }

  /** Trees as tokens, with parentheses where the grammar asks for them. */
  function PrintLine(c: Cmd): seq<Token>
    decreases c, 3
  {
    match c
    case List(l, r) => PrintBack(l) + [Sym(';')] + PrintLine(r)
    case _ => PrintBack(c)
  }

  function PrintBack(c: Cmd): seq<Token>
    decreases c, 2
  {
    match c
    case Back(d) => PrintBack(d) + [Sym('&')]
    case _ => PrintPipe(c)
  }

  function PrintPipe(c: Cmd): seq<Token>
    decreases c, 1
  {
    match c
    case Pipe(l, r) => PrintExec(l) + [Sym('|')] + PrintPipe(r)
    case _ => PrintExec(c)
  }

  function PrintExec(c: Cmd): seq<Token>
    decreases c, 0
  {
    match c
    case Exec(argv) => Args(argv)
    case Redir(d, to) => PrintExec(d) + [Sym(if to.out then '>' else '<'), Word(to.file)]
    case List(l, r) => [Sym('(')] + (PrintBack(l) + [Sym(';')] + PrintLine(r)) + [Sym(')')]
    case Back(d) => [Sym('(')] + (PrintBack(d) + [Sym('&')]) + [Sym(')')]
    case Pipe(l, r) => [Sym('(')] + (PrintExec(l) + [Sym('|')] + PrintPipe(r)) + [Sym(')')]
  }

  function Args(argv: seq<Span>): seq<Token> {
    if argv == [] then [] else [Word(argv[0])] + Args(argv[1..])
  }

  /** No command has too many arguments. */
  predicate Fits(c: Cmd) {
    match c
    case Exec(argv) => |argv| < MAXARGS
    case Redir(d, _) => Fits(d)
    case Pipe(l, r) => Fits(l) && Fits(r)
    case List(l, r) => Fits(l) && Fits(r)
    case Back(d) => Fits(d)
  }

  /** The tokens of redirections. */
  function RedTokens(rs: seq<Redirection>): seq<Token> {
    if rs == [] then [] else [Sym(if rs[0].out then '>' else '<'), Word(rs[0].file)] + RedTokens(rs[1..])
  }

  lemma {:induction false} RedsBack(rs0: seq<Redirection>, rs: seq<Redirection>, k: seq<Token>)
    requires !RedirNext(k)
    ensures TakeReds(rs0, RedTokens(rs) + k) == Reds(rs0 + rs, k)
    decreases |rs|
  {
    if rs == [] {
      assert RedTokens(rs) + k == k && rs0 + rs == rs0;
    } else {
      var ts := RedTokens(rs) + k;
      assert ts[2..] == RedTokens(rs[1..]) + k;
      RedsBack(rs0 + [rs[0]], rs[1..], k);
      assert rs0 + [rs[0]] + rs[1..] == rs0 + rs;
      assert Redirection(ts[1].w, ts[0] != Sym('<')) == rs[0];
    }
  }

  lemma OneArg(argv: seq<Span>, rs: seq<Redirection>, ts: seq<Token>, list: seq<Redirection>, rest: seq<Token>)
    requires |ts| > 0 && ts[0].Word? && |argv| + 1 < MAXARGS && TakeReds(rs, ts[1..]) == Reds(list, rest)
    ensures TakeArgs(argv, rs, ts) == TakeArgs(argv + [ts[0].w], list, rest)
  {
  }

  lemma ArgsTail(argv: seq<Span>, rs: seq<Redirection>, k: seq<Token>)
    requires argv != []
    ensures var ts := Args(argv) + RedTokens(rs) + k;
        ts[0] == Word(argv[0]) && ts[1..] == Args(argv[1..]) + RedTokens(rs) + k
  {
  }

  /** Arguments, then redirections. */
  lemma {:induction false} ArgsBack(argv0: seq<Span>, argv: seq<Span>, rs: seq<Redirection>, k: seq<Token>)
    requires ArgsEnd(k) && argv != [] && |argv0| + |argv| < MAXARGS
    ensures TakeArgs(argv0, [], Args(argv) + RedTokens(rs) + k) == Ok(Wrap(Exec(argv0 + argv), rs), k)
    decreases |argv|
  {
    var ts := Args(argv) + RedTokens(rs) + k;
    ArgsTail(argv, rs, k);
    if |argv| == 1 {
      LastArg(argv0, argv, rs, k, ts);
    } else {
      ArgsTail(argv[1..], rs, k);
      OneArg(argv0, [], ts, [], ts[1..]);
      ArgsBack(argv0 + [argv[0]], argv[1..], rs, k);
      assert argv0 + [argv[0]] + argv[1..] == argv0 + argv;
    }
  }

  lemma LastArg(argv0: seq<Span>, argv: seq<Span>, rs: seq<Redirection>, k: seq<Token>, ts: seq<Token>)
    requires ArgsEnd(k) && |argv| == 1 && |argv0| + 1 < MAXARGS && |ts| > 0 && ts[0] == Word(argv[0])
        && ts[1..] == Args(argv[1..]) + RedTokens(rs) + k
    ensures TakeArgs(argv0, [], ts) == Ok(Wrap(Exec(argv0 + argv), rs), k)
  {
    assert ts[1..] == RedTokens(rs) + k;
    RedsBack([], rs, k);
    assert [] + rs == rs && argv0 + argv == argv0 + [argv[0]];
    OneArg(argv0, [], ts, rs, k);
  }

  lemma {:induction false} WrapFront(c: Cmd, to: Redirection, rs: seq<Redirection>)
    ensures Wrap(c, [to] + rs) == Wrap(Redir(c, to), rs)
    decreases |rs|
  {
    var all := [to] + rs;
    if rs == [] {
      assert all == [to] && all[..0] == [];
    } else {
      assert all[..|all| - 1] == [to] + rs[..|rs| - 1];
      WrapFront(c, to, rs[..|rs| - 1]);
    }
  }

  predicate LineEnds(k: seq<Token>) {
    k == [] || Starts(k, ')')
  }

  predicate PipeEnds(k: seq<Token>) {
    LineEnds(k) || Starts(k, ';') || Starts(k, '&')
  }

  /** A command without its trailing ampersands, and those. */
  function Core(c: Cmd): Cmd {
    if c.Back? then Core(c.cmd) else c
  }

  function Amps(c: Cmd): seq<Token> {
    if c.Back? then Amps(c.cmd) + [Sym('&')] else []
  }

  lemma {:induction false} AmpsBack(c: Cmd, k: seq<Token>)
    ensures TakeBacks(Core(c), Amps(c) + k) == TakeBacks(c, k)
  {
    if c.Back? {
      assert Amps(c) + k == Amps(c.cmd) + ([Sym('&')] + k);
      AmpsBack(c.cmd, [Sym('&')] + k);
      assert ([Sym('&')] + k)[1..] == k;
    } else {
      assert Amps(c) + k == k;
    }
  }

  /** The order in which the lemmas below may use each other on one command. */
  function Rank(c: Cmd, level: nat): nat {
    match c
    case List(_, _) => if level == 3 then 0 else level + 1
    case Back(_) => if level == 2 then 0 else if level == 3 then 1 else level + 2
    case Pipe(_, _) => if level == 0 then 3 else level - 1
    case _ => level
  }

  lemma PrintParen(c: Cmd)
    requires !c.Exec? && !c.Redir?
    ensures PrintExec(c) == [Sym('(')] + PrintLine(c) + [Sym(')')]
  {
    if c.Pipe? {
      assert PrintLine(c) == PrintBack(c) == PrintPipe(c);
    }
  }

  lemma PlainStep(ts: seq<Token>, list: seq<Redirection>, rest: seq<Token>)
    requires !Starts(ts, '(') && TakeReds([], ts) == Reds(list, rest)
    ensures ReadExec(ts) == TakeArgs([], list, rest)
  {
  }

  lemma ParenStep(ts: seq<Token>, c: Cmd, rest: seq<Token>, list: seq<Redirection>, rest': seq<Token>)
    requires Starts(ts, '(') && ReadLine(ts[1..]) == Ok(c, rest) && Starts(rest, ')')
        && TakeReds([], rest[1..]) == Reds(list, rest')
    ensures ReadExec(ts) == Ok(Wrap(c, list), rest')
  {
  }

  lemma NoParen(rs: seq<Redirection>, k: seq<Token>)
    requires ArgsEnd(k)
    ensures !Starts(RedTokens(rs) + k, '(')
  {
    if rs == [] {
      assert RedTokens(rs) + k == k;
    }
  }

  lemma PlainBack(argv: seq<Span>, rs: seq<Redirection>, k: seq<Token>)
    requires |argv| < MAXARGS && ArgsEnd(k)
    ensures ReadExec(Args(argv) + RedTokens(rs) + k) == Ok(Wrap(Exec(argv), rs), k)
  {
    var ts := Args(argv) + RedTokens(rs) + k;
    if argv == [] {
      assert ts == RedTokens(rs) + k;
      NoParen(rs, k);
      RedsBack([], rs, k);
      assert [] + rs == rs;
      PlainStep(ts, rs, k);
    } else {
      ArgsTail(argv, rs, k);
      PlainStep(ts, [], ts);
      ArgsBack([], argv, rs, k);
      assert [] + argv == argv;
    }
  }

  /** What follows a line in parentheses. */
  function AfterParen(rs: seq<Redirection>, k: seq<Token>): seq<Token> {
    [Sym(')')] + (RedTokens(rs) + k)
  }

  lemma ParenBack(c: Cmd, rs: seq<Redirection>, k: seq<Token>)
    requires !c.Exec? && !c.Redir? && ArgsEnd(k)
        && ReadLine(PrintLine(c) + AfterParen(rs, k)) == Ok(c, AfterParen(rs, k))
    ensures ReadExec(PrintExec(c) + RedTokens(rs) + k) == Ok(Wrap(c, rs), k)
  {
    var ts, k' := PrintExec(c) + RedTokens(rs) + k, AfterParen(rs, k);
    PrintParen(c);
    assert ts == [Sym('(')] + (PrintLine(c) + k');
    assert ts[1..] == PrintLine(c) + k' && k'[1..] == RedTokens(rs) + k;
    RedsBack([], rs, k);
    assert [] + rs == rs;
    ParenStep(ts, c, k', rs, k);
  }

  lemma RedirFront(d: Cmd, to: Redirection, rs: seq<Redirection>, k: seq<Token>)
    ensures PrintExec(Redir(d, to)) + RedTokens(rs) + k == PrintExec(d) + RedTokens([to] + rs) + k
  {
    assert ([to] + rs)[1..] == rs;
  }

  /** A printed command, with redirections behind it, parses back. */
  lemma {:induction false} ExecBack(c: Cmd, rs: seq<Redirection>, k: seq<Token>)
    requires Fits(c) && ArgsEnd(k)
    ensures ReadExec(PrintExec(c) + RedTokens(rs) + k) == Ok(Wrap(c, rs), k)
    decreases c, Rank(c, 0)
  {
    match c
    case Exec(argv) =>
      PlainBack(argv, rs, k);
    case Redir(d, to) =>
      RedirFront(d, to, rs, k);
      ExecBack(d, [to] + rs, k);
      WrapFront(d, to, rs);
    case _ =>
      LineBack(c, AfterParen(rs, k));
      ParenBack(c, rs, k);
  }

  lemma {:induction false} PipeBack(c: Cmd, k: seq<Token>)
    requires Fits(c) && PipeEnds(k)
    ensures ReadPipe(PrintPipe(c) + k) == Ok(c, k)
    decreases c, Rank(c, 1)
  {
    match c
    case Pipe(l, r) =>
      var k' := [Sym('|')] + (PrintPipe(r) + k);
      assert PrintPipe(c) + k == PrintExec(l) + RedTokens([]) + k';
      ExecBack(l, [], k');
      assert k'[1..] == PrintPipe(r) + k;
      PipeBack(r, k);
    case _ =>
      assert PrintPipe(c) + k == PrintExec(c) + RedTokens([]) + k;
      ExecBack(c, [], k);
  }

  /** The pipeline under the ampersands parses back, and leaves them. */
  lemma {:induction false} CoreBack(c: Cmd, k: seq<Token>)
    requires Fits(c) && PipeEnds(k)
    ensures ReadPipe(PrintBack(c) + k) == Ok(Core(c), Amps(c) + k)
    decreases c, Rank(c, 2)
  {
    match c
    case Back(d) =>
      assert PrintBack(c) + k == PrintBack(d) + ([Sym('&')] + k);
      CoreBack(d, [Sym('&')] + k);
      assert Amps(d) + ([Sym('&')] + k) == Amps(c) + k;
    case _ =>
      PipeBack(c, k);
      assert Amps(c) + k == k;
  }

  lemma {:induction false} LineBack(c: Cmd, k: seq<Token>)
    requires Fits(c) && LineEnds(k)
    ensures ReadLine(PrintLine(c) + k) == Ok(c, k)
    decreases c, Rank(c, 3)
  {
    match c
    case List(l, r) =>
      var k' := [Sym(';')] + (PrintLine(r) + k);
      assert PrintLine(c) + k == PrintBack(l) + k';
      CoreBack(l, k');
      AmpsBack(l, k');
      assert k'[1..] == PrintLine(r) + k;
      LineBack(r, k);
    case _ =>
      CoreBack(c, k);
      AmpsBack(c, k);
  }

  /** Every command tree whose argument lists are short enough prints to a line
      that parses to that tree. */
  lemma PrintThenRead(c: Cmd)
    requires Fits(c)
    ensures ReadLine(PrintLine(c)) == Ok(c, [])
  {
    LineBack(c, []);
    assert PrintLine(c) + [] == PrintLine(c);
  }

  /** The words of a tree, and of a token list, each as often as it occurs. */
  function SpanBag(c: Cmd): multiset<Span> {
    match c
    case Exec(argv) => multiset(argv)
    case Redir(d, to) => SpanBag(d) + multiset{to.file}
    case Pipe(l, r) => SpanBag(l) + SpanBag(r)
    case List(l, r) => SpanBag(l) + SpanBag(r)
    case Back(d) => SpanBag(d)
  }

  function WordBag(ts: seq<Token>): multiset<Span> {
    if ts == [] then multiset{} else (if ts[0].Word? then multiset{ts[0].w} else multiset{}) + WordBag(ts[1..])
  }

  function FileBag(rs: seq<Redirection>): multiset<Span> {
    if rs == [] then multiset{} else FileBag(rs[..|rs| - 1]) + multiset{rs[|rs| - 1].file}
  }

  lemma {:induction false} WrapBag(c: Cmd, rs: seq<Redirection>)
    ensures SpanBag(Wrap(c, rs)) == SpanBag(c) + FileBag(rs) && (Fits(Wrap(c, rs)) <==> Fits(c))
    decreases |rs|
  {
    if rs != [] {
      WrapBag(c, rs[..|rs| - 1]);
    }
  }

  lemma {:induction false} RedsBag(rs: seq<Redirection>, ts: seq<Token>)
    requires TakeReds(rs, ts).Reds?
    ensures FileBag(TakeReds(rs, ts).list) + WordBag(TakeReds(rs, ts).rest) == FileBag(rs) + WordBag(ts)
    decreases |ts|
  {
    if RedirNext(ts) {
      var one := Redirection(ts[1].w, ts[0] != Sym('<'));
      RedsBag(rs + [one], ts[2..]);
      assert (rs + [one])[..|rs|] == rs;
      assert ts[1..][1..] == ts[2..];
    }
  }

  lemma {:induction false} ArgsBag(argv: seq<Span>, rs: seq<Redirection>, ts: seq<Token>)
    requires TakeArgs(argv, rs, ts).Ok? && |argv| < MAXARGS
    ensures var r := TakeArgs(argv, rs, ts);
        SpanBag(r.cmd) + WordBag(r.rest) == multiset(argv) + FileBag(rs) + WordBag(ts) && Fits(r.cmd)
    decreases |ts|
  {
    if ArgsEnd(ts) {
      WrapBag(Exec(argv), rs);
    } else {
      var reds, w := TakeReds(rs, ts[1..]), ts[0].w;
      OneArg(argv, rs, ts, reds.list, reds.rest);
      RedsBag(rs, ts[1..]);
      ArgsBag(argv + [w], reds.list, reds.rest);
      var r := TakeArgs(argv, rs, ts);
      calc {
        SpanBag(r.cmd) + WordBag(r.rest);
        multiset(argv + [w]) + FileBag(reds.list) + WordBag(reds.rest);
        multiset(argv) + multiset{w} + (FileBag(reds.list) + WordBag(reds.rest));
        multiset(argv) + multiset{w} + (FileBag(rs) + WordBag(ts[1..]));
        multiset(argv) + FileBag(rs) + WordBag(ts);
      }
    }
  }

  lemma {:induction false} BacksBag(c: Cmd, ts: seq<Token>)
    requires Fits(c)
    ensures SpanBag(TakeBacks(c, ts).0) + WordBag(TakeBacks(c, ts).1) == SpanBag(c) + WordBag(ts)
        && Fits(TakeBacks(c, ts).0)
    decreases |ts|
  {
    if Starts(ts, '&') {
      BacksBag(Back(c), ts[1..]);
    }
  }

  lemma PlainBag(ts: seq<Token>)
    requires ReadExec(ts).Ok? && !Starts(ts, '(')
    ensures var r := ReadExec(ts); SpanBag(r.cmd) + WordBag(r.rest) == WordBag(ts) && Fits(r.cmd)
  {
    var reds := TakeReds([], ts);
    PlainStep(ts, reds.list, reds.rest);
    RedsBag([], ts);
    ArgsBag([], reds.list, reds.rest);
    var r, none: seq<Span> := ReadExec(ts), [];
    calc {
      SpanBag(r.cmd) + WordBag(r.rest);
      multiset(none) + FileBag(reds.list) + WordBag(reds.rest);
      FileBag(reds.list) + WordBag(reds.rest);
      WordBag(ts);
    }
  }

  lemma ParenBag(ts: seq<Token>, r: Result)
    requires Starts(ts, '(') && ReadExec(ts).Ok? && r == ReadLine(ts[1..]) && r.Ok?
    requires SpanBag(r.cmd) + WordBag(r.rest) == WordBag(ts[1..]) && Fits(r.cmd)
    ensures var e := ReadExec(ts); SpanBag(e.cmd) + WordBag(e.rest) == WordBag(ts) && Fits(e.cmd)
  {
    var e, reds := ReadExec(ts), TakeReds([], r.rest[1..]);
    ParenStep(ts, r.cmd, r.rest, reds.list, reds.rest);
    RedsBag([], r.rest[1..]);
    WrapBag(r.cmd, reds.list);
    calc {
      SpanBag(e.cmd) + WordBag(e.rest);
      SpanBag(r.cmd) + (FileBag(reds.list) + WordBag(reds.rest));
      SpanBag(r.cmd) + WordBag(r.rest[1..]);
      SpanBag(r.cmd) + WordBag(r.rest);
      WordBag(ts);
    }
  }

  /** The tree that a parse returns holds exactly the words that it consumed,
      each once, and no argument list is too long. */
  lemma {:induction false} ExecBag(ts: seq<Token>)
    requires ReadExec(ts).Ok?
    ensures var r := ReadExec(ts); SpanBag(r.cmd) + WordBag(r.rest) == WordBag(ts) && Fits(r.cmd)
    decreases |ts|, 0
  {
    if Starts(ts, '(') {
      LineBag(ts[1..]);
      ParenBag(ts, ReadLine(ts[1..]));
    } else {
      PlainBag(ts);
    }
  }

  lemma {:induction false} PipeBag(ts: seq<Token>)
    requires ReadPipe(ts).Ok?
    ensures var r := ReadPipe(ts); SpanBag(r.cmd) + WordBag(r.rest) == WordBag(ts) && Fits(r.cmd)
    decreases |ts|, 1
  {
    ExecBag(ts);
    var r := ReadExec(ts);
    if Starts(r.rest, '|') {
      PipeBag(r.rest[1..]);
    }
  }

  lemma {:induction false} LineBag(ts: seq<Token>)
    requires ReadLine(ts).Ok?
    ensures var r := ReadLine(ts); SpanBag(r.cmd) + WordBag(r.rest) == WordBag(ts) && Fits(r.cmd)
    decreases |ts|, 2
  {
    PipeBag(ts);
    var r := ReadPipe(ts);
    BacksBag(r.cmd, r.rest);
    var (d, rest) := TakeBacks(r.cmd, r.rest);
    if Starts(rest, ';') {
      LineBag(rest[1..]);
    }
  }

  /** Whatever parses prints to something that parses to the same tree. */
  lemma ReadThenPrint(ts: seq<Token>)
    requires ReadLine(ts).Ok?
    ensures ReadLine(PrintLine(ReadLine(ts).cmd)) == Ok(ReadLine(ts).cmd, [])
  {
    LineBag(ts);
    PrintThenRead(ReadLine(ts).cmd);
  }
}
