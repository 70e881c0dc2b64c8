/** sh.c: the lexer and the parser over the characters of a line, and the NUL
    bytes that end its words in place. */
module Shell {
  import opened ShellGrammar

  const NUL := '\0'

  predicate IsSpace(c: char) {
    c == ' ' || c == '\t' || c == '\r' || c == '\n' || c == '\U{000B}'
  }

  predicate IsSym(c: char) {
    c == '<' || c == '|' || c == '>' || c == '&' || c == ';' || c == '(' || c == ')'
  }

  predicate IsWordChar(c: char) {
    !IsSpace(c) && !IsSym(c)
  }

  /** The line, which the byte behind it ends. */
  function At(s: seq<char>, i: nat): char {
    if i < |s| then s[i] else NUL
  }

  ghost predicate IsLine(s: seq<char>) {
    forall i :: 0 <= i < |s| ==> s[i] != NUL
  }

  /** The first position from i on that is not white space. */
  function Skip(s: seq<char>, i: nat): (j: nat)
    requires i <= |s|
    ensures i <= j <= |s| && (j < |s| ==> !IsSpace(s[j]))
    decreases |s| - i
  {
    if i < |s| && IsSpace(s[i]) then Skip(s, i + 1) else i
  }

  /** The end of the word characters from i on. */
  function WordEnd(s: seq<char>, i: nat): (j: nat)
    requires i <= |s|
    ensures i <= j <= |s| && (j < |s| ==> !IsWordChar(s[j]))
    decreases |s| - i
  {
    if i < |s| && IsWordChar(s[i]) then WordEnd(s, i + 1) else i
  }

  lemma SkipsSpace(s: seq<char>, i: nat)
    requires i <= |s|
    ensures forall k :: i <= k < Skip(s, i) ==> IsSpace(s[k])
    decreases |s| - i
  {
  }

  lemma EndsWord(s: seq<char>, i: nat)
    requires i <= |s|
    ensures forall k :: i <= k < WordEnd(s, i) ==> IsWordChar(s[k])
    decreases |s| - i
  {
  }

  /** The token at position i, which is not white space, and where it ends. */
  function TokenAt(s: seq<char>, i: nat): Token
    requires i < |s| && !IsSpace(s[i])
  {
    if s[i] == '>' && At(s, i + 1) == '>' then Sym('+')
    else if IsSym(s[i]) then Sym(s[i])
    else Word(Span(i, WordEnd(s, i)))
  }

  function TokenEnd(s: seq<char>, i: nat): (j: nat)
    requires i < |s| && !IsSpace(s[i])
    ensures i < j <= |s|
  {
    if s[i] == '>' && At(s, i + 1) == '>' then i + 2 else if IsSym(s[i]) then i + 1 else WordEnd(s, i)
  }

  /** The tokens from position i on. */
  function Lex(s: seq<char>, i: nat): seq<Token>
    requires i <= |s|
    decreases |s| - i
  {
    var j := Skip(s, i);
    if j == |s| then [] else [TokenAt(s, j)] + Lex(s, TokenEnd(s, j))
  }

  lemma LexSkip(s: seq<char>, i: nat, j: nat)
    requires i <= |s| && j == Skip(s, i)
    ensures Lex(s, j) == Lex(s, i)
  {
    assert Skip(s, j) == j;
  }

  /** A maximal run of word characters. */
  ghost predicate IsWord(s: seq<char>, w: Span) {
    && w.q < w.eq <= |s| && (forall k :: w.q <= k < w.eq ==> IsWordChar(s[k]))
    && (w.eq < |s| ==> !IsWordChar(s[w.eq])) && (w.q > 0 ==> !IsWordChar(s[w.q - 1]))
  }

  /** Position i is not inside a word. */
  ghost predicate Boundary(s: seq<char>, i: nat) {
    i <= |s| && (0 < i < |s| ==> !IsWordChar(s[i - 1]) || !IsWordChar(s[i]))
  }

  lemma WordEndIs(s: seq<char>, w: Span)
    requires IsWord(s, w)
    ensures WordEnd(s, w.q) == w.eq
  {
    EndsWord(s, w.q);
  }

  /** The words that the lexer finds from a boundary on are the maximal runs of
      word characters there, each once. */
  lemma {:induction false} LexWords(s: seq<char>, i: nat, w: Span)
    requires Boundary(s, i)
    ensures WordBag(Lex(s, i))[w] == if IsWord(s, w) && w.q >= i then 1 else 0
    decreases |s| - i
  {
    var j := Skip(s, i);
    SkipsSpace(s, i);
    if j == |s| {
      assert IsWord(s, w) && w.q >= i ==> IsWordChar(s[w.q]);
    } else {
      var k := TokenEnd(s, j);
      LexWords(s, k, w);
      LexStep(s, i, j, w);
    }
  }

  lemma LexStep(s: seq<char>, i: nat, j: nat, w: Span)
    requires Boundary(s, i) && j == Skip(s, i) < |s|
    ensures Boundary(s, TokenEnd(s, j)) && Lex(s, i) == [TokenAt(s, j)] + Lex(s, TokenEnd(s, j))
    ensures TokenAt(s, j).Word? ==> IsWord(s, TokenAt(s, j).w) && TokenAt(s, j).w.q == j
    ensures IsWord(s, w) && w.q >= i ==> w.q >= TokenEnd(s, j) || TokenAt(s, j) == Word(w)
  {
    SkipsSpace(s, i);
    EndsWord(s, j);
    if IsWord(s, w) && i <= w.q < TokenEnd(s, j) {
      assert w.q >= j by {
        assert IsWordChar(s[w.q]);
      }
      if w.q == j {
        WordEndIs(s, w);
      }
    }
  }

  /** What gettoken returns for a token. */
  function TokChar(t: Token): char {
    match t
    case Word(_) => 'a'
    case Sym(c) => c
  }

  method SkipSpace(s: seq<char>, i: nat) returns (j: nat)
    requires i <= |s|
    ensures j == Skip(s, i)
  {
    j := i;
    while j < |s| && IsSpace(s[j])
      invariant i <= j <= |s| && Skip(s, j) == Skip(s, i)
    {
      j := j + 1;
    }
  }

  method SkipWord(s: seq<char>, i: nat) returns (j: nat)
    requires i <= |s|
    ensures j == WordEnd(s, i)
  {
    j := i;
    while j < |s| && !IsSpace(s[j]) && !IsSym(s[j])
      invariant i <= j <= |s| && WordEnd(s, j) == WordEnd(s, i)
    {
      j := j + 1;
    }
  }

  /** gettoken: the first token from ps on, NUL at the end, and the cursor at
      the tokens behind it. */
  method GetToken(s: seq<char>, ps: nat) returns (tok: char, q: nat, eq: nat, ps': nat)
    requires IsLine(s) && ps <= |s|
    ensures ps <= ps' <= |s|
    ensures Lex(s, ps) == [] ==> tok == NUL && Lex(s, ps') == []
    ensures Lex(s, ps) != [] ==> ps < ps' && tok == TokChar(Lex(s, ps)[0]) && Lex(s, ps') == Lex(s, ps)[1..]
    ensures Lex(s, ps) != [] && Lex(s, ps)[0].Word? ==> Lex(s, ps)[0].w == Span(q, eq)
  {
    var i := SkipSpace(s, ps);
    q := i;
    if i == |s| {
      tok, eq := NUL, i;
    } else if s[i] == '>' {
      tok, eq := '>', i + 1;
      if eq < |s| && s[eq] == '>' {
        tok, eq := '+', eq + 1;
      }
    } else if IsSym(s[i]) {
      tok, eq := s[i], i + 1;
    } else {
      tok := 'a';
      eq := SkipWord(s, i);
    }
    ps' := SkipSpace(s, eq);
    LexSkip(s, eq, ps');
  }

  /** The character that the next token starts with. */
  function NextChar(ts: seq<Token>): char {
    if ts == [] || ts[0].Word? then NUL else if ts[0].c == '+' then '>' else ts[0].c
  }

  lemma PeekRedir(ts: seq<Token>)
    ensures NextChar(ts) in "<>" <==> RedirNext(ts)
  {
  }

  lemma PeekStop(ts: seq<Token>)
    ensures NextChar(ts) in "|)&;" <==> ts != [] && ArgsEnd(ts)
  {
  }

  /** peek, for symbols: whether the next token starts with one of toks. */
  method Peek(s: seq<char>, ps: nat, toks: string) returns (yes: bool, ps': nat)
    requires IsLine(s) && ps <= |s| && forall i :: 0 <= i < |toks| ==> IsSym(toks[i])
    ensures ps <= ps' <= |s| && Lex(s, ps') == Lex(s, ps)
    ensures yes <==> NextChar(Lex(s, ps)) in toks
    ensures Lex(s, ps) == [] ==> ps' == |s|
  {
    ps' := SkipSpace(s, ps);
    LexSkip(s, ps, ps');
    yes := ps' < |s| && s[ps'] in toks;
  }

  datatype Parsed = Tree(cmd: Cmd) | Failed(why: string)

  /** The character-level result p with the cursor at ps agrees with the
      token-level result r. */
  ghost predicate Agrees(s: seq<char>, p: Parsed, ps: nat, r: Result) {
    ps <= |s| &&
    match r
    case Ok(cmd, rest) => p == Tree(cmd) && Lex(s, ps) == rest
    case Panic(why) => p == Failed(why)
  }

  /** parseredirs, collecting the redirections. */
  method ParseRedirs(s: seq<char>, ps: nat, rs: seq<Redirection>) returns (ok: bool, rs': seq<Redirection>, ps': nat)
    requires IsLine(s) && ps <= |s|
    ensures ps <= ps' <= |s|
    ensures ok ==> TakeReds(rs, Lex(s, ps)) == Reds(rs', Lex(s, ps'))
    ensures !ok ==> TakeReds(rs, Lex(s, ps)) == NoFile
  {
    rs', ps', ok := rs, ps, true;
    var more;
    more, ps' := Peek(s, ps', "<>");
    PeekRedir(Lex(s, ps'));
    while more
      invariant ps <= ps' <= |s| && ok && TakeReds(rs, Lex(s, ps)) == TakeReds(rs', Lex(s, ps'))
          && (more <==> RedirNext(Lex(s, ps')))
      decreases |s| - ps'
    {
      ghost var ts := Lex(s, ps');
      var tok, _, _, p1 := GetToken(s, ps');
      var kind, q, eq, p2 := GetToken(s, p1);
      if kind != 'a' {
        return false, rs', p2;
      }
      assert ts[1..] == Lex(s, p1) && ts[2..] == Lex(s, p1)[1..];
      rs' := rs' + [Redirection(Span(q, eq), tok != '<')];
      more, ps' := Peek(s, p2, "<>");
      PeekRedir(Lex(s, ps'));
    }
  }

  /** The argument loop of parseexec. */
  method ParseArgs(s: seq<char>, ps: nat, rs: seq<Redirection>) returns (r: Parsed, ps': nat)
    requires IsLine(s) && ps <= |s|
    ensures ps <= ps' <= |s| && Agrees(s, r, ps', TakeArgs([], rs, Lex(s, ps)))
  {
    var argv: seq<Span>, rs' := [], rs;
    ps' := ps;
    var stop;
    stop, ps' := Peek(s, ps', "|)&;");
    PeekStop(Lex(s, ps'));
    while !stop
      invariant ps <= ps' <= |s| && TakeArgs([], rs, Lex(s, ps)) == TakeArgs(argv, rs', Lex(s, ps'))
      invariant stop <==> Lex(s, ps') != [] && ArgsEnd(Lex(s, ps'))
      decreases |s| - ps', Lex(s, ps') != []
    {
      ghost var ts := Lex(s, ps');
      var tok, q, eq, p1 := GetToken(s, ps');
      if tok == NUL {
        ps' := p1;
        break;
      }
      if tok != 'a' {
        return Failed("syntax"), p1;
      }
      argv := argv + [Span(q, eq)];
      if |argv| >= MAXARGS {
        return Failed("too many args"), p1;
      }
      var ok, rs'', p2 := ParseRedirs(s, p1, rs');
      if !ok {
        return Failed("missing file for redirection"), p2;
      }
      OneArg(argv[..|argv| - 1], rs', ts, rs'', Lex(s, p2));
      rs' := rs'';
      stop, ps' := Peek(s, p2, "|)&;");
      PeekStop(Lex(s, ps'));
    }
    r := Tree(Wrap(Exec(argv), rs'));
  }

  lemma PeekOne(ts: seq<Token>, c: char)
    requires c == '(' || c == ')' || c == '|' || c == '&' || c == ';'
    ensures NextChar(ts) in [c] <==> Starts(ts, c)
  {
  }

  /** peek for one symbol, and gettoken when it is there. */
  method Accept(s: seq<char>, ps: nat, c: char) returns (yes: bool, ps': nat)
    requires IsLine(s) && ps <= |s| && (c == '(' || c == ')' || c == '|' || c == '&' || c == ';')
    ensures ps <= ps' <= |s| && (yes <==> Starts(Lex(s, ps), c))
    ensures yes ==> ps < ps' && Lex(s, ps') == Lex(s, ps)[1..]
    ensures !yes ==> Lex(s, ps') == Lex(s, ps)
  {
    PeekOne(Lex(s, ps), c);
    yes, ps' := Peek(s, ps, [c]);
    if yes {
      var _, _, _, p := GetToken(s, ps');
      ps' := p;
    }
  }

  /** parseblock, behind its opening parenthesis. */
  method FinishBlock(s: seq<char>, ps: nat, c: Cmd) returns (r: Parsed, ps': nat)
    requires IsLine(s) && ps <= |s|
    ensures ps <= ps' <= |s|
    ensures !Starts(Lex(s, ps), ')') ==> r == Failed("syntax - missing )")
    ensures Starts(Lex(s, ps), ')') && TakeReds([], Lex(s, ps)[1..]).NoFile? ==>
        r == Failed("missing file for redirection")
    ensures Starts(Lex(s, ps), ')') && TakeReds([], Lex(s, ps)[1..]).Reds? ==>
              r == Tree(Wrap(c, TakeReds([], Lex(s, ps)[1..]).list))
                  && Lex(s, ps') == TakeReds([], Lex(s, ps)[1..]).rest
  {
    var closed, p1 := Accept(s, ps, ')');
    if !closed {
      return Failed("syntax - missing )"), p1;
    }

    var ok, rs, p2 := ParseRedirs(s, p1, []);
    if !ok {
      return Failed("missing file for redirection"), p2;
    }
    return Tree(Wrap(c, rs)), p2;
  }

  /** parseexec: the tree that the tokens read as, or the same panic. */
  method ParseExec(s: seq<char>, ps: nat) returns (r: Parsed, ps': nat)
    requires IsLine(s) && ps <= |s|
    ensures ps <= ps' <= |s| && Agrees(s, r, ps', ReadExec(Lex(s, ps)))
    decreases |s| - ps, 0
  {
    var open, p1 := Accept(s, ps, '(');
    if open {
      var line, p2 := ParseLine(s, p1);
      if line.Failed? {
        return line, p2;
      }
      r, ps' := FinishBlock(s, p2, line.cmd);
    } else {
      var ok, rs, p2 := ParseRedirs(s, p1, []);
      if !ok {
        return Failed("missing file for redirection"), p2;
      }
      PlainStep(Lex(s, ps), rs, Lex(s, p2));
      r, ps' := ParseArgs(s, p2, rs);
    }
  }

  /** parsepipe. */
  method ParsePipe(s: seq<char>, ps: nat) returns (r: Parsed, ps': nat)
    requires IsLine(s) && ps <= |s|
    ensures ps <= ps' <= |s| && Agrees(s, r, ps', ReadPipe(Lex(s, ps)))
    decreases |s| - ps, 1
  {
    r, ps' := ParseExec(s, ps);
    if r.Tree? {
      var bar, p1 := Accept(s, ps', '|');
      ps' := p1;
      if bar {
        var right, p2 := ParsePipe(s, p1);
        r, ps' := if right.Failed? then right else Tree(Pipe(r.cmd, right.cmd)), p2;
      }
    }
  }

  /** The ampersands of parseline. */
  method ParseBacks(s: seq<char>, ps: nat, c: Cmd) returns (d: Cmd, ps': nat)
    requires IsLine(s) && ps <= |s|
    ensures ps <= ps' <= |s| && TakeBacks(c, Lex(s, ps)) == (d, Lex(s, ps'))
  {
    d, ps' := c, ps;
    var amp, p := Accept(s, ps', '&');
    while amp
      invariant ps <= ps' <= |s| && ps' <= p <= |s| && TakeBacks(c, Lex(s, ps)) == TakeBacks(d, Lex(s, ps'))
      invariant amp <==> Starts(Lex(s, ps'), '&')
      invariant if amp then ps' < p && Lex(s, p) == Lex(s, ps')[1..] else Lex(s, p) == Lex(s, ps')
      decreases |s| - ps'
    {
      d, ps' := Back(d), p;
      amp, p := Accept(s, ps', '&');
    }
    ps' := p;
  }

  /** parseline. */
  method ParseLine(s: seq<char>, ps: nat) returns (r: Parsed, ps': nat)
    requires IsLine(s) && ps <= |s|
    ensures ps <= ps' <= |s| && Agrees(s, r, ps', ReadLine(Lex(s, ps)))
    decreases |s| - ps, 2
  {
    r, ps' := ParsePipe(s, ps);
    if r.Tree? {
      var d, p1 := ParseBacks(s, ps', r.cmd);
      var semi, p2 := Accept(s, p1, ';');
      r, ps' := Tree(d), p2;
      if semi {
        var right, p3 := ParseLine(s, p2);
        r, ps' := if right.Failed? then right else Tree(List(d, right.cmd)), p3;
      }
    }
  }

  /** The positions behind the words of a tree, where NULs go. */
  function Ends(c: Cmd): set<nat> {
    match c
    case Exec(argv) => EndsOf(argv)
    case Redir(d, to) => Ends(d) + {to.file.eq}
    case Pipe(l, r) => Ends(l) + Ends(r)
    case List(l, r) => Ends(l) + Ends(r)
    case Back(d) => Ends(d)
  }

  function EndsOf(argv: seq<Span>): set<nat> {
    if argv == [] then {} else EndsOf(argv[..|argv| - 1]) + {argv[|argv| - 1].eq}
  }

  /** t with NULs at the positions in e. */
  ghost predicate Nulled(t: seq<char>, u: seq<char>, e: set<nat>) {
    |u| == |t| && forall i: nat :: i < |t| ==> u[i] == if i in e then NUL else t[i]
  }

  /** nulterminate. */
  method NulTerminate(buf: array<char>, c: Cmd)
    requires forall e :: e in Ends(c) ==> e < buf.Length
    modifies buf
    ensures Nulled(old(buf[..]), buf[..], Ends(c))
    decreases c
  {
    match c
    case Exec(argv) =>
      var i := 0;
      while i < |argv|
        invariant i <= |argv| && Nulled(old(buf[..]), buf[..], EndsOf(argv[..i]))
      {
        EndsGrow(argv, i);
        assert argv[i].eq in Ends(c);
        assert argv[..i + 1][..i] == argv[..i];
        buf[argv[i].eq] := NUL;
        i := i + 1;
      }
      assert argv[..i] == argv;
    case Redir(d, to) =>
      assert Ends(d) <= Ends(c) && to.file.eq in Ends(c);
      NulTerminate(buf, d);
      buf[to.file.eq] := NUL;
    case Pipe(l, r) =>
      assert Ends(l) <= Ends(c) && Ends(r) <= Ends(c);
      NulTerminate(buf, l);
      NulTerminate(buf, r);
    case List(l, r) =>
      assert Ends(l) <= Ends(c) && Ends(r) <= Ends(c);
      NulTerminate(buf, l);
      NulTerminate(buf, r);
    case Back(d) =>
      assert Ends(d) <= Ends(c);
      NulTerminate(buf, d);
  }

  lemma {:induction false} EndsGrow(argv: seq<Span>, i: nat)
    requires i < |argv|
    ensures argv[i].eq in EndsOf(argv)
  {
    if i < |argv| - 1 {
      EndsGrow(argv[..|argv| - 1], i);
    }
  }

  /** The string that a pointer to position q reads as. */
  function CString(t: seq<char>, q: nat): string
    decreases |t| - q
  {
    if q < |t| && t[q] != NUL then [t[q]] + CString(t, q + 1) else []
  }

  lemma {:induction false} CStringIs(t: seq<char>, q: nat, eq: nat)
    requires q <= eq < |t| && t[eq] == NUL && forall k :: q <= k < eq ==> t[k] != NUL
    ensures CString(t, q) == t[q..eq]
    decreases eq - q
  {
    if q < eq {
      CStringIs(t, q + 1, eq);
    }
  }

  lemma {:induction false} EndsAreEnds(c: Cmd, w: Span)
    ensures w in SpanBag(c) ==> w.eq in Ends(c)
  {
    match c
    case Exec(argv) =>
      if w in SpanBag(c) {
        var i :| 0 <= i < |argv| && argv[i] == w;
        EndsGrow(argv, i);
      }
    case Redir(d, to) => EndsAreEnds(d, w);
    case Pipe(l, r) => EndsAreEnds(l, w); EndsAreEnds(r, w);
    case List(l, r) => EndsAreEnds(l, w); EndsAreEnds(r, w);
    case Back(d) => EndsAreEnds(d, w);
  }

  lemma {:induction false} EndsOfWord(argv: seq<Span>, e: nat) returns (w: Span)
    requires e in EndsOf(argv)
    ensures w in argv && w.eq == e
  {
    if argv[|argv| - 1].eq == e {
      w := argv[|argv| - 1];
    } else {
      w := EndsOfWord(argv[..|argv| - 1], e);
    }
  }

  lemma {:induction false} EndOfWord(c: Cmd, e: nat) returns (w: Span)
    requires e in Ends(c)
    ensures w in SpanBag(c) && w.eq == e
  {
    match c
    case Exec(argv) => w := EndsOfWord(argv, e);
    case Redir(d, to) =>
      if to.file.eq == e {
        w := to.file;
      } else {
        w := EndOfWord(d, e);
      }
    case Pipe(l, r) =>
      if e in Ends(l) {
        w := EndOfWord(l, e);
      } else {
        w := EndOfWord(r, e);
      }
    case List(l, r) =>
      if e in Ends(l) {
        w := EndOfWord(l, e);
      } else {
        w := EndOfWord(r, e);
      }
    case Back(d) => w := EndOfWord(d, e);
  }

  lemma NotAnEnd(s: seq<char>, c: Cmd, k: nat)
    requires k < |s| && IsWordChar(s[k]) && forall x :: x in SpanBag(c) ==> IsWord(s, x)
    ensures k !in Ends(c)
  {
    if k in Ends(c) {
      var x := EndOfWord(c, k);
    }
  }

  /** NULs behind maximal words leave every word whole, and end it. */
  lemma WordsStay(s: seq<char>, t: seq<char>, u: seq<char>, c: Cmd, w: Span)
    requires IsLine(s) && |s| < |t| && t[..|s|] == s && t[|s|] == NUL && Nulled(t, u, Ends(c)) && w in SpanBag(c)
    requires forall x :: x in SpanBag(c) ==> IsWord(s, x)
    ensures IsWord(s, w) && CString(u, w.q) == s[w.q..w.eq]
  {
    EndsAreEnds(c, w);
    forall k: nat | w.q <= k < w.eq
      ensures u[k] == s[k] != NUL
    {
      assert s[k] == t[..|s|][k];
      NotAnEnd(s, c, k);
    }
    CStringIs(u, w.q, w.eq);
    assert u[w.q..w.eq] == s[w.q..w.eq];
  }

  method StrLen(buf: array<char>) returns (n: nat)
    requires exists i: nat :: i < buf.Length && buf[i] == NUL
    ensures n < buf.Length && buf[n] == NUL && IsLine(buf[..n])
  {
    n := 0;
    while buf[n] != NUL
      invariant n < buf.Length && forall i :: 0 <= i < n ==> buf[i] != NUL
      decreases buf.Length - n
    {
      n := n + 1;
    }
  }

  /** parsecmd on a NUL-terminated line. It succeeds just when the tokens read
      as a whole line; then the tree has every word of the line exactly once,
      and each of them, read in place as a string, is its text. */
  method ParseCmd(buf: array<char>) returns (r: Parsed, ghost s: seq<char>)
    requires exists i: nat :: i < buf.Length && buf[i] == NUL
    modifies buf
    ensures |s| < buf.Length && s == old(buf[..])[..|s|] && IsLine(s) && old(buf[|s|]) == NUL
    ensures r.Tree? <==> ReadLine(Lex(s, 0)).Ok? && ReadLine(Lex(s, 0)).rest == []
    ensures r.Tree? ==> r.cmd == ReadLine(Lex(s, 0)).cmd
    ensures r.Tree? ==> forall w :: SpanBag(r.cmd)[w] == if IsWord(s, w) then 1 else 0
    ensures r.Tree? ==> forall w :: w in SpanBag(r.cmd) ==> IsWord(s, w) && CString(buf[..], w.q) == s[w.q..w.eq]
    ensures r.Failed? ==> buf[..] == old(buf[..])
  {
    var n := StrLen(buf);
    var line := buf[..n];
    s := line;
    var ps;
    r, ps := ParseLine(line, 0);
    if r.Failed? {
      return;
    }

    var _, end := Peek(line, ps, "");
    if end != n {
      return Failed("syntax"), s;
    }
    LineBag(Lex(s, 0));
    NothingLeft(s, ps);
    forall w
      ensures SpanBag(r.cmd)[w] == if IsWord(s, w) then 1 else 0
    {
      LexWords(s, 0, w);
    }
    forall e | e in Ends(r.cmd)
      ensures e < buf.Length
    {
      var w := EndOfWord(r.cmd, e);
    }
    NulTerminate(buf, r.cmd);
    forall w | w in SpanBag(r.cmd)
      ensures CString(buf[..], w.q) == s[w.q..w.eq]
    {
      WordsStay(s, old(buf[..]), buf[..], r.cmd, w);
    }
  }

  lemma NothingLeft(s: seq<char>, ps: nat)
    requires ps <= |s| && Skip(s, ps) == |s|
    ensures Lex(s, ps) == []
  {
  }
}
