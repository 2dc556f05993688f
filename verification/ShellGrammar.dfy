/**
  What the shell's parser accepts: its grammar as a relation between commands
  and token sequences, without a cursor and without a direction of reading.
 */
module ShellGrammar {
  import opened Shell

  function Toks(s: string): seq<Token>
    decreases |s|
  {
    var (t, r) := GetToken(s);
    if t == Eof then [] else [t] + Toks(r)
  }

  predicate IsArrow(t: Token) { t == Op('<') || t == Op('>') || t == Appending }

  /** Words and redirections in any order, each kind in the order of its list. */
  ghost predicate Simple(args: seq<string>, rs: seq<Redirection>, ts: seq<Token>)
    decreases |ts|
  {
    if ts == [] then args == [] && rs == []
    else if ts[0].Word? then args != [] && args[0] == ts[0].w && Simple(args[1..], rs, ts[1..])
    else
      && |ts| > 1 && IsArrow(ts[0]) && ts[1].Word?
      && rs != [] && rs[0] == Redirection(ModeOf(ts[0]), ts[1].w) && Simple(args, rs[1..], ts[2..])
  }

  ghost predicate SimpleCommand(c: Cmd, ts: seq<Token>) {
    exists args, rs :: c == Wrap(Exec(args), rs) && |args| < MAXARGS && Simple(args, rs, ts)
  }

  /** "(" line ")" and redirections. */
  ghost predicate Block(c: Cmd, ts: seq<Token>, d: Cmd, rs: seq<Redirection>, k: nat)
    decreases |ts|, 0
  {
    && 0 < k < |ts| && ts[0] == Op('(') && ts[k] == Op(')') && c == Wrap(d, rs)
    && Line(d, ts[1..k]) && Simple([], rs, ts[k + 1..])
  }

  ghost predicate Command(c: Cmd, ts: seq<Token>)
    decreases |ts|, 1
  {
    SimpleCommand(c, ts) || exists d, rs, k :: Block(c, ts, d, rs, k)
  }

  ghost predicate Pipeline(c: Cmd, ts: seq<Token>)
    decreases |ts|, 2
  {
    || Command(c, ts)
    || (c.Pipe? && exists k :: 0 <= k < |ts| && ts[k] == Op('|') && Command(c.left, ts[..k]) && Pipeline(c.right, ts[k + 1..]))
  }

  ghost predicate Statement(c: Cmd, ts: seq<Token>)
    decreases |ts|, 3
  {
    || Pipeline(c, ts)
    || (c.Back? && ts != [] && ts[|ts| - 1] == Op('&') && Statement(c.cmd, ts[..|ts| - 1]))
  }

  ghost predicate Line(c: Cmd, ts: seq<Token>)
    decreases |ts|, 4
  {
    || Statement(c, ts)
    || (c.List? && exists k :: 0 <= k < |ts| && ts[k] == Op(';') && Statement(c.left, ts[..k]) && Line(c.right, ts[k + 1..]))
  }

  // ----- tokens and the parser's tests -----

  lemma ToksStep(s: string)
    ensures Toks(Skip(s)) == Toks(s)
    ensures Toks(s) == [] <==> Skip(s) == ""
    ensures Toks(s) == [] <==> GetToken(s).0 == Eof
    ensures Toks(s) != [] ==> Toks(s)[0] == GetToken(s).0 && Toks(s)[1..] == Toks(GetToken(s).1)
  {
    TokenSkip(s, {});
  }

  lemma PeekOp(s: string, c: char)
    requires c in {'|', ')', '&', ';', '('}
    ensures Peek(s, {c}) <==> Toks(s) != [] && Toks(s)[0] == Op(c)
  {
  }

  lemma PeekArrow(s: string)
    ensures Peek(s, {'<', '>'}) <==> Toks(s) != [] && IsArrow(Toks(s)[0])
  {
  }

  predicate Closes(t: Token) { t == Op('|') || t == Op(')') || t == Op('&') || t == Op(';') }

  lemma PeekClose(s: string)
    ensures Peek(s, {'|', ')', '&', ';'}) <==> Toks(s) != [] && Closes(Toks(s)[0])
  {
  }

  // ----- words and redirections -----

  /** parseexec without a parenthesis, from any point of its loop. */
  function ExecFrom(s: string, args: seq<string>, rs: seq<Redirection>): Result<Cmd> {
    var first := ParseRedirs(s, rs);
    if first.Ok? then ParseArgs(first.rest, args, first.value) else Panic(first.why)
  }

  lemma FromClose(s: string, args: seq<string>, rs: seq<Redirection>)
    requires Toks(s) == [] || Closes(Toks(s)[0])
    ensures ExecFrom(s, args, rs) == Ok(Wrap(Exec(args), rs), Skip(s))
  {
    PeekArrow(s);
    PeekClose(s);
    ToksStep(s);
    SkippedFirst(s, rs, args);
    hide Toks, Skip, GetToken, Peek, Wrap;
    assert ParseRedirs(s, rs) == Ok(rs, Skip(s));
  }

  lemma FromWord(s: string, args: seq<string>, rs: seq<Redirection>)
    requires Toks(s) != [] && Toks(s)[0].Word?
    ensures
      var (tok, s1) := GetToken(s);
      && tok == Toks(s)[0]
      && ExecFrom(s, args, rs) == if |args| + 1 >= MAXARGS then Panic("too many args") else ExecFrom(s1, args + [tok.w], rs)
  {
    PeekArrow(s);
    PeekClose(s);
    ToksStep(s);
    SkippedFirst(s, rs, args);
    hide Toks, Skip, GetToken, Peek, Wrap;
    assert ParseRedirs(s, rs) == Ok(rs, Skip(s));
  }

  lemma FromArrow(s: string, args: seq<string>, rs: seq<Redirection>)
    requires Toks(s) != [] && IsArrow(Toks(s)[0])
    ensures
      var (tok, s1) := GetToken(s);
      var (file, s2) := GetToken(s1);
      && tok == Toks(s)[0]
      && ExecFrom(s, args, rs) ==
           if file.Word? then ExecFrom(s2, args, rs + [Redirection(ModeOf(tok), file.w)]) else Panic("missing file for redirection")
  {
    PeekArrow(s);
    ToksStep(s);
    hide Toks, Skip, GetToken, Peek, ParseArgs, ModeOf;
  }

  lemma FromOpen(s: string, args: seq<string>, rs: seq<Redirection>)
    requires Toks(s) != [] && !Toks(s)[0].Word? && !IsArrow(Toks(s)[0]) && !Closes(Toks(s)[0])
    ensures ExecFrom(s, args, rs) == Panic("syntax")
  {
    PeekArrow(s);
    PeekClose(s);
    ToksStep(s);
    SkippedFirst(s, rs, args);
    hide Toks, Skip, GetToken, Peek, Wrap;
    assert ParseRedirs(s, rs) == Ok(rs, Skip(s));
  }

  /** Taking off the first token, or the first two. */
  lemma TokPrefix(s: string, n: nat)
    requires n < |Toks(s)|
    ensures
      var s1 := GetToken(s).1;
      && n <= |Toks(s1)| && Toks(s)[..n + 1] == [Toks(s)[0]] + Toks(s1)[..n] && Toks(s)[n + 1..] == Toks(s1)[n..]
  {
    ToksStep(s);
    hide Toks, GetToken;
    assert Toks(s) == [Toks(s)[0]] + Toks(s)[1..];
  }

  lemma SimpleWord(w: string, args: seq<string>, rs: seq<Redirection>, ts: seq<Token>)
    ensures Simple([w] + args, rs, [Word(w)] + ts) <==> Simple(args, rs, ts)
  {
    assert ([w] + args)[1..] == args && ([Word(w)] + ts)[1..] == ts;
  }

  lemma SimpleArrow(t: Token, f: string, args: seq<string>, rs: seq<Redirection>, ts: seq<Token>)
    requires IsArrow(t)
    ensures Simple(args, [Redirection(ModeOf(t), f)] + rs, [t] + ([Word(f)] + ts)) <==> Simple(args, rs, ts)
  {
    var all := [t] + ([Word(f)] + ts);
    assert ([Redirection(ModeOf(t), f)] + rs)[1..] == rs && all[2..] == ts && all[1] == Word(f);
  }

  lemma SimpleNone()
    ensures Simple([], [], [])
  {
  }

  /** Every command that is read from words and redirections is described by the tokens read. */
  lemma {:induction false} SimpleSound(s: string, args0: seq<string>, rs0: seq<Redirection>)
    returns (n: nat, args: seq<string>, rs: seq<Redirection>)
    requires ExecFrom(s, args0, rs0).Ok? && |args0| < MAXARGS
    ensures n <= |Toks(s)| && Simple(args, rs, Toks(s)[..n]) && |args0 + args| < MAXARGS
    ensures ExecFrom(s, args0, rs0).value == Wrap(Exec(args0 + args), rs0 + rs)
    ensures Toks(ExecFrom(s, args0, rs0).rest) == Toks(s)[n..]
    decreases |s|
  {
    hide *;
    ToksStep(s);
    if Toks(s) == [] || Closes(Toks(s)[0]) {
      FromClose(s, args0, rs0);
      n, args, rs := 0, [], [];
      assert Toks(s)[..0] == [] && args0 + [] == args0 && rs0 + [] == rs0 && Toks(s)[0..] == Toks(s);
      SimpleNone();
    } else if Toks(s)[0].Word? {
      FromWord(s, args0, rs0);
      var (tok, s1) := GetToken(s);
      n, args, rs := SimpleSound(s1, args0 + [tok.w], rs0);
      assert args0 + [tok.w] + args == args0 + ([tok.w] + args);
      TokPrefix(s, n);
      SimpleWord(tok.w, args, rs, Toks(s1)[..n]);
      n, args := n + 1, [tok.w] + args;
    } else {
      if !IsArrow(Toks(s)[0]) { FromOpen(s, args0, rs0); }
      FromArrow(s, args0, rs0);
      var (tok, s1) := GetToken(s);
      var (file, s2) := GetToken(s1);
      var r := Redirection(ModeOf(tok), file.w);
      n, args, rs := SimpleSound(s2, args0, rs0 + [r]);
      assert rs0 + [r] + rs == rs0 + ([r] + rs);
      ToksStep(s1);
      TokPrefix(s1, n);
      TokPrefix(s, n + 1);
      SimpleArrow(tok, file.w, args, rs, Toks(s2)[..n]);
      n, rs := n + 2, [r] + rs;
    }
  }

  lemma SimpleParts(args: seq<string>, rs: seq<Redirection>, ts: seq<Token>)
    requires Simple(args, rs, ts)
    ensures ts == [] ==> args == [] && rs == []
    ensures ts != [] && ts[0].Word? ==> args != [] && args[0] == ts[0].w && Simple(args[1..], rs, ts[1..])
    ensures ts != [] && !ts[0].Word? ==>
      && |ts| > 1 && IsArrow(ts[0]) && ts[1].Word? && rs != [] && rs[0] == Redirection(ModeOf(ts[0]), ts[1].w)
      && Simple(args, rs[1..], ts[2..])
  {
  }

  /** The first n tokens are those of the text, one by one. */
  lemma TokFirst(s: string, n: nat)
    requires 0 < n <= |Toks(s)|
    ensures
      var s1 := GetToken(s).1;
      && Toks(s)[..n][0] == GetToken(s).0 && n - 1 <= |Toks(s1)| && |s1| < |s|
      && Toks(s)[..n][1..] == Toks(s1)[..n - 1] && Toks(s)[n..] == Toks(s1)[n - 1..]
      && (n < |Toks(s)| ==> n - 1 < |Toks(s1)| && Toks(s)[n] == Toks(s1)[n - 1])
  {
    ToksStep(s);
    hide Toks, GetToken;
    assert Toks(s) == [Toks(s)[0]] + Toks(s)[1..];
  }

  ghost predicate Follows(ts: seq<Token>, n: nat) {
    n <= |ts| && (n < |ts| ==> Closes(ts[n]))
  }

  lemma FollowFacts(s: string, n: nat)
    requires Follows(Toks(s), n)
    ensures n <= |Toks(s)|
    ensures n == 0 ==> Toks(s) == [] || Closes(Toks(s)[0])
    ensures n > 0 ==> n - 1 <= |Toks(GetToken(s).1)| && Follows(Toks(GetToken(s).1), n - 1)
  {
    if n > 0 { TokFirst(s, n); }
  }

  /** Words and redirections up to a closing token are read as described. */
  lemma {:induction false} SimpleComplete(s: string, n: nat, args0: seq<string>, rs0: seq<Redirection>, args: seq<string>, rs: seq<Redirection>)
    requires Follows(Toks(s), n) && Simple(args, rs, Toks(s)[..n]) && |args0 + args| < MAXARGS
    ensures ExecFrom(s, args0, rs0).Ok? && ExecFrom(s, args0, rs0).value == Wrap(Exec(args0 + args), rs0 + rs)
    ensures Toks(ExecFrom(s, args0, rs0).rest) == Toks(s)[n..]
    decreases |s|
  {
    hide *;
    FollowFacts(s, n);
    SimpleParts(args, rs, Toks(s)[..n]);
    if n == 0 {
      ToksStep(s);
      FromClose(s, args0, rs0);
      assert Toks(s)[..0] == [] && args0 + [] == args0 && rs0 + [] == rs0 && Toks(s)[0..] == Toks(s);
    } else if Toks(s)[0].Word? {
      TokFirst(s, n);
      FromWord(s, args0, rs0);
      var (tok, s1) := GetToken(s);
      assert args0 + [tok.w] + args[1..] == args0 + args;
      SimpleComplete(s1, n - 1, args0 + [tok.w], rs0, args[1..], rs);
    } else {
      TokFirst(s, n);
      FromArrow(s, args0, rs0);
      var (tok, s1) := GetToken(s);
      var (file, s2) := GetToken(s1);
      assert Toks(s)[..n][1] == Toks(s1)[..n - 1][0];
      TokFirst(s1, n - 1);
      FollowFacts(s1, n - 1);
      assert Toks(s)[..n][2..] == Toks(s1)[..n - 1][1..];
      var r := Redirection(ModeOf(tok), file.w);
      assert rs0 + [r] + rs[1..] == rs0 + rs;
      SimpleComplete(s2, n - 2, args0, rs0 + [r], args, rs[1..]);
    }
  }

  lemma RedirsCase(s: string, rs: seq<Redirection>)
    ensures Toks(s) == [] || !IsArrow(Toks(s)[0]) ==> ParseRedirs(s, rs) == Ok(rs, Skip(s))
    ensures
      var (tok, s1) := GetToken(s);
      var (file, s2) := GetToken(s1);
      Toks(s) != [] && IsArrow(Toks(s)[0]) ==>
        && tok == Toks(s)[0]
        && ParseRedirs(s, rs) == if file.Word? then ParseRedirs(s2, rs + [Redirection(ModeOf(tok), file.w)]) else Panic("missing file for redirection")
  {
    PeekArrow(s);
    ToksStep(s);
    hide Toks, Skip, GetToken, Peek, ModeOf;
  }

  lemma {:induction false} RedirsSound(s: string, rs0: seq<Redirection>) returns (n: nat, rs: seq<Redirection>)
    requires ParseRedirs(s, rs0).Ok?
    ensures n <= |Toks(s)| && Simple([], rs, Toks(s)[..n])
    ensures ParseRedirs(s, rs0).value == rs0 + rs && Toks(ParseRedirs(s, rs0).rest) == Toks(s)[n..]
    decreases |s|
  {
    hide *;
    RedirsCase(s, rs0);
    ToksStep(s);
    if Toks(s) == [] || !IsArrow(Toks(s)[0]) {
      n, rs := 0, [];
      assert Toks(s)[..0] == [] && rs0 + [] == rs0 && Toks(s)[0..] == Toks(s);
      SimpleNone();
    } else {
      var (tok, s1) := GetToken(s);
      var (file, s2) := GetToken(s1);
      var r := Redirection(ModeOf(tok), file.w);
      n, rs := RedirsSound(s2, rs0 + [r]);
      assert rs0 + [r] + rs == rs0 + ([r] + rs);
      ToksStep(s1);
      TokPrefix(s1, n);
      TokPrefix(s, n + 1);
      SimpleArrow(tok, file.w, [], rs, Toks(s2)[..n]);
      n, rs := n + 2, [r] + rs;
    }
  }

  lemma {:induction false} RedirsComplete(s: string, n: nat, rs0: seq<Redirection>, rs: seq<Redirection>)
    requires Follows(Toks(s), n) && Simple([], rs, Toks(s)[..n])
    ensures ParseRedirs(s, rs0).Ok? && ParseRedirs(s, rs0).value == rs0 + rs
    ensures Toks(ParseRedirs(s, rs0).rest) == Toks(s)[n..]
    decreases |s|
  {
    hide *;
    FollowFacts(s, n);
    SimpleParts([], rs, Toks(s)[..n]);
    RedirsCase(s, rs0);
    ToksStep(s);
    if n == 0 {
      ClosesNoArrow(s);
      assert Toks(s)[..0] == [] && rs0 + [] == rs0 && Toks(s)[0..] == Toks(s);
    } else {
      TokFirst(s, n);
      var (tok, s1) := GetToken(s);
      var (file, s2) := GetToken(s1);
      assert Toks(s)[..n][1] == Toks(s1)[..n - 1][0];
      TokFirst(s1, n - 1);
      FollowFacts(s1, n - 1);
      assert Toks(s)[..n][2..] == Toks(s1)[..n - 1][1..];
      var r := Redirection(ModeOf(tok), file.w);
      assert rs0 + [r] + rs[1..] == rs0 + rs;
      RedirsComplete(s2, n - 2, rs0 + [r], rs[1..]);
    }
  }

  lemma ClosesNoArrow(s: string)
    ensures Toks(s) != [] && Closes(Toks(s)[0]) ==> !IsArrow(Toks(s)[0]) && Toks(s)[0] != Op('(')
  {
  }

  // ----- commands -----

  lemma ExecCase(s: string)
    ensures (Toks(s) == [] || Toks(s)[0] != Op('(')) ==> ParseExec(s) == ExecFrom(s, [], [])
    ensures
      Toks(s) != [] && Toks(s)[0] == Op('(') ==>
        && Toks(s) == [Op('(')] + Toks(GetToken(s).1) && |GetToken(s).1| < |s|
        && Peek(s, {'('}) && ParseExec(s) == ParseBlock(s)
  {
    OpFirst(s, '(');
    hide Toks, Skip, GetToken, Peek, ParseRedirs, ParseBlock, ParseArgs, Wrap;
  }

  lemma BlockCase(s: string)
    requires Peek(s, {'('})
    ensures
      var inner := ParseLine(GetToken(s).1);
      if inner.Ok? && Peek(inner.rest, {')'}) && ParseRedirs(GetToken(inner.rest).1, []).Ok? then
        var r := ParseRedirs(GetToken(inner.rest).1, []);
        ParseBlock(s) == Ok(Wrap(inner.value, r.value), r.rest)
      else !ParseBlock(s).Ok?
  {
    hide Skip, GetToken, Peek, ParseRedirs, ParseLine, Wrap;
  }

  /** A token of the given kind at the front, and the rest. */
  lemma OpFirst(s: string, c: char)
    requires c in {'|', ')', '&', ';', '('}
    ensures Peek(s, {c}) <==> Toks(s) != [] && Toks(s)[0] == Op(c)
    ensures Peek(s, {c}) ==> Toks(s) == [Op(c)] + Toks(GetToken(s).1) && |GetToken(s).1| < |s|
  {
    PeekOp(s, c);
    ToksStep(s);
    hide Toks, Skip, Peek;
    assert Toks(s) != [] ==> Toks(s) == [Toks(s)[0]] + Toks(s)[1..];
  }

  /** A block's tokens, put together. */
  lemma BlockTokens(a: seq<Token>, b: seq<Token>, ts: seq<Token>, k: nat, m: nat)
    requires k <= |a| && a[k..] == [Op(')')] + b && m <= |b| && ts == [Op('(')] + a
    ensures k + m + 2 <= |ts| && ts[k + m + 2..] == b[m..]
    ensures
      var p := ts[..k + m + 2];
      p[0] == Op('(') && p[k + 1] == Op(')') && p[1..k + 1] == a[..k] && p[k + 2..] == b[..m]
  {
    JoinTokens(a, k, Op(')'), b, m);
    var q := a[..k + m + 1];
    Prepended(Op('('), a, k + m + 1);
    PrependedSlices(Op('('), q, k);
  }

  lemma Prepended(x: Token, a: seq<Token>, n: nat)
    requires n <= |a|
    ensures ([x] + a)[..n + 1] == [x] + a[..n] && ([x] + a)[n + 1..] == a[n..]
  {
  }

  lemma PrependedSlices(x: Token, q: seq<Token>, k: nat)
    requires k < |q|
    ensures ([x] + q)[k + 1] == q[k] && ([x] + q)[1..k + 1] == q[..k] && ([x] + q)[k + 2..] == q[k + 1..]
  {
  }

  lemma IsBlock(c: Cmd, ts: seq<Token>, d: Cmd, rs: seq<Redirection>, k: nat)
    requires 0 < k < |ts| && ts[0] == Op('(') && ts[k] == Op(')') && c == Wrap(d, rs)
    requires Line(d, ts[1..k]) && Simple([], rs, ts[k + 1..])
    ensures Command(c, ts)
  {
    assert Block(c, ts, d, rs, k);
  }

  lemma {:induction false} CommandSound(s: string) returns (n: nat)
    requires ParseExec(s).Ok?
    ensures n <= |Toks(s)| && Command(ParseExec(s).value, Toks(s)[..n]) && Toks(ParseExec(s).rest) == Toks(s)[n..]
    decreases |s|, 1
  {
    assert 0 < MAXARGS;
    hide *;
    ExecCase(s);
    if Toks(s) == [] || Toks(s)[0] != Op('(') {
      var args, rs;
      n, args, rs := SimpleSound(s, [], []);
      assert [] + args == args && [] + rs == rs;
      IsSimple(ParseExec(s).value, Toks(s)[..n], args, rs);
    } else {
      n := BlockSound(s);
    }
  }

  lemma {:induction false} BlockSound(s: string) returns (n: nat)
    requires Peek(s, {'('}) && ParseBlock(s).Ok? && |GetToken(s).1| < |s| && Toks(s) == [Op('(')] + Toks(GetToken(s).1)
    ensures n <= |Toks(s)| && Command(ParseBlock(s).value, Toks(s)[..n]) && Toks(ParseBlock(s).rest) == Toks(s)[n..]
    decreases |s|, 0
  {
    hide *;
    BlockCase(s);
    var u := GetToken(s).1;
    var inner := ParseLine(u);
    var k := LineSound(u);
    OpFirst(inner.rest, ')');
    var v := GetToken(inner.rest).1;
    var m, rs := RedirsSound(v, []);
    assert [] + rs == rs;
    BlockTokens(Toks(u), Toks(v), Toks(s), k, m);
    n := k + m + 2;
    IsBlock(ParseBlock(s).value, Toks(s)[..n], inner.value, rs, k + 1);
  }

  lemma IsSimple(c: Cmd, ts: seq<Token>, args: seq<string>, rs: seq<Redirection>)
    requires c == Wrap(Exec(args), rs) && |args| < MAXARGS && Simple(args, rs, ts)
    ensures Command(c, ts)
  {
  }

  lemma CommandCases(c: Cmd, ts: seq<Token>) returns (simple: bool, args: seq<string>, rs: seq<Redirection>, d: Cmd, k: nat)
    requires Command(c, ts)
    ensures simple ==> c == Wrap(Exec(args), rs) && |args| < MAXARGS && Simple(args, rs, ts)
    ensures !simple ==> 0 < k < |ts| && ts[0] == Op('(') && ts[k] == Op(')') && c == Wrap(d, rs)
    ensures !simple ==> Line(d, ts[1..k]) && Simple([], rs, ts[k + 1..])
  {
    simple, args, rs, d, k := SimpleCommand(c, ts), [], [], c, 0;
    if simple {
      args, rs :| c == Wrap(Exec(args), rs) && |args| < MAXARGS && Simple(args, rs, ts);
    } else {
      d, rs, k :| Block(c, ts, d, rs, k);
    }
  }

  lemma SimpleFirst(args: seq<string>, rs: seq<Redirection>, ts: seq<Token>)
    requires Simple(args, rs, ts)
    ensures ts != [] ==> ts[0] != Op('(')
  {
  }

  lemma {:induction false} CommandComplete(s: string, n: nat, c: Cmd)
    requires Follows(Toks(s), n) && n <= |Toks(s)| && Command(c, Toks(s)[..n])
    ensures ParseExec(s).Ok? && ParseExec(s).value == c && Toks(ParseExec(s).rest) == Toks(s)[n..]
    decreases |s|, 1
  {
    hide *;
    FollowFacts(s, n);
    ExecCase(s);
    var ts := Toks(s);
    var simple, args, rs, d, k := CommandCases(c, ts[..n]);
    if simple {
      SimpleFirst(args, rs, ts[..n]);
      ClosesNoArrow(s);
      assert n > 0 ==> ts[..n][0] == ts[0];
      SimpleComplete(s, n, [], [], args, rs);
      assert [] + args == args && [] + rs == rs;
    } else {
      BlockComplete(s, n, d, rs, k);
    }
  }

  lemma {:induction false} BlockComplete(s: string, n: nat, d: Cmd, rs: seq<Redirection>, k: nat)
    requires Follows(Toks(s), n) && 0 < k < n <= |Toks(s)| && Toks(s)[..n][0] == Op('(') && Toks(s)[..n][k] == Op(')')
    requires Line(d, Toks(s)[..n][1..k]) && Simple([], rs, Toks(s)[..n][k + 1..])
    ensures ParseExec(s).Ok? && ParseExec(s).value == Wrap(d, rs) && Toks(ParseExec(s).rest) == Toks(s)[n..]
    decreases |s|, 0
  {
    hide *;
    ExecCase(s);
    var u := GetToken(s).1;
    BlockSplit(Toks(s), n, k, Toks(u));
    LineComplete(u, k - 1, d);
    var inner := ParseLine(u);
    OpFirst(inner.rest, ')');
    BlockCase(s);
    var v := GetToken(inner.rest).1;
    assert Toks(v) == Toks(u)[k - 1..][1..] == Toks(u)[k..];
    RedirsComplete(v, n - k - 1, [], rs);
    assert [] + rs == rs;
  }

  lemma BlockSplit(ts: seq<Token>, n: nat, k: nat, us: seq<Token>)
    requires Follows(ts, n) && 0 < k < n <= |ts|
    requires ts[..n][0] == Op('(') && ts[..n][k] == Op(')')
    requires ts[0] == Op('(') ==> ts == [Op('(')] + us
    ensures ts[0] == Op('(') && k <= |us| && us[k - 1] == Op(')') && us[k - 1..] != [] && us[k - 1..][0] == Op(')')
    ensures ts[..n][1..k] == us[..k - 1] && n - k - 1 <= |us[k..]| && ts[..n][k + 1..] == us[k..][..n - k - 1]
    ensures Follows(us[k..], n - k - 1) && us[k..][n - k - 1..] == ts[n..]
  {
    assert us == ts[1..];
    assert us[k..] == ts[k + 1..];
  }

  lemma FollowShift(ts: seq<Token>, n: nat, us: seq<Token>, j: nat)
    requires Follows(ts, n) && j <= n && us == ts[j..]
    ensures Follows(us, n - j) && n - j <= |us| && us[n - j..] == ts[n..]
  {
  }

  // ----- pipelines -----

  lemma PipeCase(s: string)
    ensures ParsePipe(s).Ok? ==> ParseExec(s).Ok?
    ensures
      var first := ParseExec(s);
      first.Ok? && !Peek(first.rest, {'|'}) ==> ParsePipe(s) == Ok(first.value, Skip(first.rest))
    ensures
      var first := ParseExec(s);
      first.Ok? && Peek(first.rest, {'|'}) ==>
        var others := ParsePipe(GetToken(first.rest).1);
        if others.Ok? then ParsePipe(s) == Ok(Pipe(first.value, others.value), others.rest) else !ParsePipe(s).Ok?
  {
    hide ParseExec, GetToken, Skip, Peek;
  }

  lemma IsPipe(c: Cmd, ts: seq<Token>, k: nat)
    requires c.Pipe? && k < |ts| && ts[k] == Op('|') && Command(c.left, ts[..k]) && Pipeline(c.right, ts[k + 1..])
    ensures Pipeline(c, ts)
  {
    hide Command;
  }

  lemma JoinTokens(ts: seq<Token>, k: nat, op: Token, us: seq<Token>, m: nat)
    requires k <= |ts| && ts[k..] == [op] + us && m <= |us|
    ensures k + m + 1 <= |ts| && ts[k] == op && ts[k + m + 1..] == us[m..]
    ensures
      var p := ts[..k + m + 1];
      p[k] == op && p[..k] == ts[..k] && p[k + 1..] == us[..m]
  {
    assert ts == ts[..k] + ([op] + us);
    var p := ts[..k + m + 1];
    assert forall i :: 0 <= i < m ==> p[k + 1 + i] == us[i];
  }

  lemma {:induction false} PipeSound(s: string) returns (n: nat)
    requires ParsePipe(s).Ok?
    ensures n <= |Toks(s)| && Pipeline(ParsePipe(s).value, Toks(s)[..n]) && Toks(ParsePipe(s).rest) == Toks(s)[n..]
    decreases |s|, 2
  {
    hide *;
    PipeCase(s);
    var first := ParseExec(s);
    var k := CommandSound(s);
    OpFirst(first.rest, '|');
    if Peek(first.rest, {'|'}) {
      var u := GetToken(first.rest).1;
      RestShorter(s);
      var m := PipeSound(u);
      JoinTokens(Toks(s), k, Op('|'), Toks(u), m);
      n := k + m + 1;
      IsPipe(ParsePipe(s).value, Toks(s)[..n], k);
    } else {
      ToksStep(first.rest);
      n := k;
      IsCommand(first.value, Toks(s)[..n]);
    }
  }

  lemma RestShorter(s: string)
    ensures ParseExec(s).Ok? ==> |ParseExec(s).rest| <= |s|
    ensures ParsePipe(s).Ok? ==> |ParsePipe(s).rest| <= |s|
  {
  }

  lemma IsCommand(c: Cmd, ts: seq<Token>)
    requires Command(c, ts)
    ensures Pipeline(c, ts)
  {
    hide Command;
  }

  lemma PipeCases(c: Cmd, ts: seq<Token>) returns (one: bool, k: nat)
    requires Pipeline(c, ts)
    ensures one ==> Command(c, ts)
    ensures !one ==> c.Pipe? && k < |ts| && ts[k] == Op('|') && Command(c.left, ts[..k]) && Pipeline(c.right, ts[k + 1..])
  {
    hide Command;
    one, k := Command(c, ts), 0;
    if !one {
      k :| 0 <= k < |ts| && ts[k] == Op('|') && Command(c.left, ts[..k]) && Pipeline(c.right, ts[k + 1..]);
    }
  }

  ghost predicate NotBefore(ts: seq<Token>, n: nat, op: char) {
    n < |ts| ==> ts[n] != Op(op)
  }

  lemma {:induction false} PipeComplete(s: string, n: nat, c: Cmd)
    requires Follows(Toks(s), n) && n <= |Toks(s)| && NotBefore(Toks(s), n, '|') && Pipeline(c, Toks(s)[..n])
    ensures ParsePipe(s).Ok? && ParsePipe(s).value == c && Toks(ParsePipe(s).rest) == Toks(s)[n..]
    decreases |s|, 2
  {
    hide *;
    PipeCase(s);
    var ts := Toks(s);
    var one, k := PipeCases(c, ts[..n]);
    if one {
      CommandComplete(s, n, c);
      var t := ParseExec(s).rest;
      OpFirst(t, '|');
      NotBeforeFirst(ts, n, '|');
      ToksStep(t);
    } else {
      assert ts[..n][k] == ts[k] && ts[..n][..k] == ts[..k];
      FollowsOp(ts, k, '|');
      CommandComplete(s, k, c.left);
      var t := ParseExec(s).rest;
      OpFirst(t, '|');
      var u := GetToken(t).1;
      RestShorter(s);
      assert ts[k..] == [Op('|')] + Toks(u);
      assert Toks(u) == ts[k + 1..];
      assert ts[..n][k + 1..] == Toks(u)[..n - k - 1];
      FollowShift(ts, n, Toks(u), k + 1);
      NotBeforeShift(ts, n, Toks(u), k + 1, '|');
      PipeComplete(u, n - k - 1, c.right);
    }
  }

  lemma NotBeforeFirst(ts: seq<Token>, n: nat, op: char)
    requires NotBefore(ts, n, op) && n <= |ts|
    ensures ts[n..] == [] || ts[n..][0] != Op(op)
  {
  }

  lemma NotBeforeShift(ts: seq<Token>, n: nat, us: seq<Token>, j: nat, op: char)
    requires NotBefore(ts, n, op) && j <= n <= |ts| && us == ts[j..]
    ensures NotBefore(us, n - j, op)
  {
  }

  lemma FollowsOp(ts: seq<Token>, k: nat, op: char)
    requires k < |ts| && ts[k] == Op(op) && op in {'|', ')', '&', ';'}
    ensures Follows(ts, k)
  {
  }

  // ----- statements and lines -----

  lemma LineCase(s: string)
    ensures ParseLine(s).Ok? ==> ParsePipe(s).Ok?
    ensures
      var piped := ParsePipe(s);
      piped.Ok? ==>
        var first := ParseBacks(piped.value, piped.rest);
        && (!Peek(first.rest, {';'}) ==> ParseLine(s) == first)
        && (Peek(first.rest, {';'}) ==>
              var others := ParseLine(GetToken(first.rest).1);
              if others.Ok? then ParseLine(s) == Ok(List(first.value, others.value), others.rest) else !ParseLine(s).Ok?)
  {
    hide ParsePipe, GetToken, Skip, Peek, ParseBacks;
  }

  lemma BacksCase(c: Cmd, t: string)
    ensures Peek(t, {'&'}) ==> ParseBacks(c, t) == ParseBacks(Back(c), GetToken(t).1)
    ensures !Peek(t, {'&'}) ==> ParseBacks(c, t) == Ok(c, Skip(t))
  {
  }

  lemma IsBack(c: Cmd, ts: seq<Token>, n: nat)
    requires n < |ts| && ts[n] == Op('&') && Statement(c, ts[..n])
    ensures Statement(Back(c), ts[..n + 1])
  {
    hide Pipeline;
    assert ts[..n + 1][..n] == ts[..n];
  }

  lemma {:induction false} BacksSound(c: Cmd, t: string, ts: seq<Token>, m: nat) returns (n: nat)
    requires m <= |ts| && Statement(c, ts[..m]) && Toks(t) == ts[m..]
    ensures n <= |ts| && Statement(ParseBacks(c, t).value, ts[..n]) && Toks(ParseBacks(c, t).rest) == ts[n..]
    decreases |t|
  {
    hide *;
    BacksCase(c, t);
    OpFirst(t, '&');
    ToksStep(t);
    if Peek(t, {'&'}) {
      var u := GetToken(t).1;
      assert ts[m] == ts[m..][0];
      assert Toks(u) == ts[m..][1..] == ts[m + 1..];
      IsBack(c, ts, m);
      n := BacksSound(Back(c), u, ts, m + 1);
    } else {
      n := m;
    }
  }

  lemma {:induction false} LineSound(s: string) returns (n: nat)
    requires ParseLine(s).Ok?
    ensures n <= |Toks(s)| && Line(ParseLine(s).value, Toks(s)[..n]) && Toks(ParseLine(s).rest) == Toks(s)[n..]
    decreases |s|, 4
  {
    hide *;
    LineCase(s);
    var piped := ParsePipe(s);
    var m := PipeSound(s);
    IsPipeline(piped.value, Toks(s)[..m]);
    var first := ParseBacks(piped.value, piped.rest);
    var k := BacksSound(piped.value, piped.rest, Toks(s), m);
    OpFirst(first.rest, ';');
    if Peek(first.rest, {';'}) {
      var u := GetToken(first.rest).1;
      RestShorter(s);
      BacksShorter(piped.value, piped.rest);
      var l := LineSound(u);
      JoinTokens(Toks(s), k, Op(';'), Toks(u), l);
      n := k + l + 1;
      IsList(ParseLine(s).value, Toks(s)[..n], k);
    } else {
      n := k;
      IsStatement(first.value, Toks(s)[..n]);
    }
  }

  lemma BacksShorter(c: Cmd, t: string)
    ensures |ParseBacks(c, t).rest| <= |t|
  {
  }

  lemma IsPipeline(c: Cmd, ts: seq<Token>)
    requires Pipeline(c, ts)
    ensures Statement(c, ts)
  {
    hide Pipeline;
  }

  lemma IsStatement(c: Cmd, ts: seq<Token>)
    requires Statement(c, ts)
    ensures Line(c, ts)
  {
    hide Statement;
  }

  lemma IsList(c: Cmd, ts: seq<Token>, k: nat)
    requires c.List? && k < |ts| && ts[k] == Op(';') && Statement(c.left, ts[..k]) && Line(c.right, ts[k + 1..])
    ensures Line(c, ts)
  {
    hide Statement;
  }

  lemma StatementCases(c: Cmd, ts: seq<Token>)
    requires Statement(c, ts) && !Pipeline(c, ts)
    ensures c.Back? && ts != [] && ts[|ts| - 1] == Op('&') && Statement(c.cmd, ts[..|ts| - 1])
  {
    hide Pipeline;
  }

  /** However many `&` follow, the loop over them is at c when the n tokens are read. */
  lemma {:induction false} StatementComplete(s: string, n: nat, c: Cmd) returns (u: string)
    requires Follows(Toks(s), n) && n <= |Toks(s)| && NotBefore(Toks(s), n, '|') && Statement(c, Toks(s)[..n])
    ensures ParsePipe(s).Ok? && ParseBacks(ParsePipe(s).value, ParsePipe(s).rest) == ParseBacks(c, u)
    ensures Toks(u) == Toks(s)[n..] && |u| <= |s|
    decreases |s|, 3, n
  {
    hide *;
    var ts := Toks(s);
    if Pipeline(c, ts[..n]) {
      PipeComplete(s, n, c);
      RestShorter(s);
      u := ParsePipe(s).rest;
    } else {
      StatementCases(c, ts[..n]);
      assert ts[..n][n - 1] == ts[n - 1] && ts[..n][..n - 1] == ts[..n - 1];
      FollowsOp(ts, n - 1, '&');
      AmpersandNext(ts, n - 1);
      var t := StatementComplete(s, n - 1, c.cmd);
      OpFirst(t, '&');
      assert ts[n - 1..][0] == Op('&');
      BacksCase(c.cmd, t);
      u := GetToken(t).1;
      assert Toks(u) == ts[n - 1..][1..] == ts[n..];
    }
  }

  lemma AmpersandNext(ts: seq<Token>, n: nat)
    requires n < |ts| && ts[n] == Op('&')
    ensures NotBefore(ts, n, '|')
  {
  }

  lemma LineCases(c: Cmd, ts: seq<Token>) returns (one: bool, k: nat)
    requires Line(c, ts)
    ensures one ==> Statement(c, ts)
    ensures !one ==> c.List? && k < |ts| && ts[k] == Op(';') && Statement(c.left, ts[..k]) && Line(c.right, ts[k + 1..])
  {
    hide Statement;
    one, k := Statement(c, ts), 0;
    if !one {
      k :| 0 <= k < |ts| && ts[k] == Op(';') && Statement(c.left, ts[..k]) && Line(c.right, ts[k + 1..]);
    }
  }

  lemma {:induction false} LineComplete(s: string, n: nat, c: Cmd)
    requires n <= |Toks(s)| && (n < |Toks(s)| ==> Toks(s)[n] == Op(')')) && Line(c, Toks(s)[..n])
    ensures ParseLine(s).Ok? && ParseLine(s).value == c && Toks(ParseLine(s).rest) == Toks(s)[n..]
    decreases |s|, 4
  {
    hide *;
    LineCase(s);
    var ts := Toks(s);
    var one, k := LineCases(c, ts[..n]);
    if one {
      EndsLine(ts, n);
      var u := StatementComplete(s, n, c);
      BacksEnd(c, u, ts, n);
    } else {
      assert ts[..n][k] == ts[k] && ts[..n][..k] == ts[..k];
      FollowsOp(ts, k, ';');
      SemicolonNext(ts, k);
      var u := StatementComplete(s, k, c.left);
      BacksEnd(c.left, u, ts, k);
      var t := ParseBacks(c.left, u).rest;
      OpFirst(t, ';');
      var v := GetToken(t).1;
      BacksShorter(c.left, u);
      assert ts[k..] == [Op(';')] + Toks(v);
      assert Toks(v) == ts[k + 1..];
      assert ts[..n][k + 1..] == Toks(v)[..n - k - 1];
      assert n < |ts| ==> Toks(v)[n - k - 1] == ts[n];
      LineComplete(v, n - k - 1, c.right);
      assert Toks(v)[n - k - 1..] == ts[n..];
    }
  }

  lemma SemicolonNext(ts: seq<Token>, n: nat)
    requires n < |ts| && ts[n] == Op(';')
    ensures NotBefore(ts, n, '|') && NotBefore(ts, n, '&')
  {
  }

  lemma EndsLine(ts: seq<Token>, n: nat)
    requires n <= |ts| && (n < |ts| ==> ts[n] == Op(')'))
    ensures Follows(ts, n) && NotBefore(ts, n, '|') && NotBefore(ts, n, '&') && NotBefore(ts, n, ';')
  {
  }

  lemma BacksEnd(c: Cmd, u: string, ts: seq<Token>, n: nat)
    requires n <= |ts| && Toks(u) == ts[n..] && NotBefore(ts, n, '&')
    ensures ParseBacks(c, u) == Ok(c, Skip(u)) && Toks(Skip(u)) == ts[n..]
    ensures NotBefore(ts, n, ';') ==> !Peek(Skip(u), {';'})
    ensures n < |ts| && ts[n] == Op(';') ==> Peek(Skip(u), {';'})
  {
    OpFirst(u, '&');
    OpFirst(Skip(u), ';');
    ToksStep(u);
    BacksCase(c, u);
    hide Toks, Skip, Peek, ParseBacks;
  }

  /** parsecmd yields a command exactly when the whole text's tokens are a line for it. */
  lemma ParsedIffDerived(s: string, c: Cmd)
    ensures ParseCmd(s) == Ok(c, "") <==> Line(c, Toks(s))
  {
    hide Line, Toks, ParseLine, Skip;
    var r := ParseLine(s);
    if ParseCmd(s) == Ok(c, "") {
      var n := LineSound(s);
      ToksStep(r.rest);
      assert Toks(s)[n..] == [] && Toks(s)[..n] == Toks(s);
    }
    if Line(c, Toks(s)) {
      var n := |Toks(s)|;
      assert Toks(s)[..n] == Toks(s) && Toks(s)[n..] == [];
      LineComplete(s, n, c);
      ToksStep(r.rest);
    }
  }

  // ----- the printer uses the fewest parentheses -----

  /** How many opening parentheses a text has. */
  function Opens(s: string): nat {
    if s == "" then 0 else (if s[0] == '(' then 1 else 0) + Opens(s[1..])
  }

  function OpenToks(ts: seq<Token>): nat {
    if ts == [] then 0 else (if ts[0] == Op('(') then 1 else 0) + OpenToks(ts[1..])
  }

  lemma {:induction false} OpensAppend(s: string, t: string)
    ensures Opens(s + t) == Opens(s) + Opens(t)
  {
    if s == "" {
      assert s + t == t;
    } else {
      assert (s + t)[1..] == s[1..] + t;
      OpensAppend(s[1..], t);
    }
  }

  lemma {:induction false} OpenToksAppend(a: seq<Token>, b: seq<Token>)
    ensures OpenToks(a + b) == OpenToks(a) + OpenToks(b)
  {
    if a == [] {
      assert a + b == b;
    } else {
      assert (a + b)[1..] == a[1..] + b;
      OpenToksAppend(a[1..], b);
    }
  }

  lemma {:induction false} NoOpens(s: string)
    requires forall i :: 0 <= i < |s| ==> s[i] != '('
    ensures Opens(s) == 0
  {
    if s != "" { NoOpens(s[1..]); }
  }

  /** Every opening parenthesis of a text is a token of its own. */
  lemma {:induction false} OpensAreTokens(s: string)
    ensures Opens(s) == OpenToks(Toks(s))
    decreases |s|
  {
    var (tok, rest) := GetToken(s);
    var before, after := TokenSpelled(s);
    OpensAppend(before, Spelling(tok) + (after + rest));
    OpensAppend(Spelling(tok), after + rest);
    OpensAppend(after, rest);
    NoOpens(before);
    NoOpens(after);
    SpelledOpens(s);
    ToksStep(s);
    hide GetToken, Skip, Toks;
    if tok == Eof {
      assert rest == "";
    } else {
      OpensAreTokens(rest);
      assert Toks(s) == [tok] + Toks(rest);
    }
  }

  lemma SpelledOpens(s: string)
    ensures
      var tok := GetToken(s).0;
      && Opens(Spelling(tok)) == (if tok == Op('(') then 1 else 0)
      && (tok == Eof ==> GetToken(s).1 == "")
  {
    var tok := GetToken(s).0;
    if tok.Word? {
      assert forall i :: 0 <= i < |tok.w| ==> WordChar(tok.w[i]);
      NoOpens(tok.w);
    } else if tok == Appending {
      NoOpens(">>");
    } else if tok.Op? {
      assert Opens([tok.c][1..]) == 0;
    }
  }

  /** The parentheses that Print puts around and inside c. */
  function Parens(c: Cmd, level: nat): nat {
    match c
    case Exec(_) => 0
    case Redir(_, _) => Parens(Core(c), if Core(c).Exec? then 0 else 3)
    case List(l, r) => Parens(l, 1) + Parens(r, 0) + if level > 0 then 1 else 0
    case Back(b) => Parens(b, 1) + if level > 1 then 1 else 0
    case Pipe(l, r) => Parens(l, 3) + Parens(r, 2) + if level > 2 then 1 else 0
  }

  lemma WordsOpenNothing(args: seq<string>)
    requires forall i :: 0 <= i < |args| ==> IsWord(args[i])
    ensures Opens(PrintArgs(args)) == 0
  {
    if args != [] {
      WordsOpenNothing(args[1..]);
      assert forall i :: 0 <= i < |args[0]| ==> WordChar(args[0][i]);
      NoOpens(args[0]);
      NoOpens(" ");
      OpensAppend(args[0], " ");
      OpensAppend(args[0] + " ", PrintArgs(args[1..]));
    }
  }

  lemma RedirsOpenNothing(rs: seq<Redirection>)
    requires forall i :: 0 <= i < |rs| ==> IsWord(rs[i].file)
    ensures Opens(PrintRedirs(rs)) == 0
  {
    if rs != [] {
      hide Opens, PrintRedir, IsWord;
      RedirsOpenNothing(rs[1..]);
      RedirOpensNothing(rs[0]);
      OpensAppend(PrintRedir(rs[0]), PrintRedirs(rs[1..]));
    } else {
      NoOpens("");
    }
  }

  lemma RedirOpensNothing(r: Redirection)
    requires IsWord(r.file)
    ensures Opens(PrintRedir(r)) == 0
  {
    hide Opens;
    assert forall i :: 0 <= i < |r.file| ==> WordChar(r.file[i]);
    NoOpens(r.file);
    NoOpens(Arrow(r.mode));
    NoOpens(" ");
    OpensAppend(Arrow(r.mode), r.file);
    OpensAppend(Arrow(r.mode) + r.file, " ");
  }

  lemma GroupedOpens(s: string, group: bool)
    ensures Opens(Grouped(s, group)) == Opens(s) + if group then 1 else 0
  {
    if group {
      OpensAppend("(", s);
      OpensAppend("(" + s, ")");
      NoOpens(")");
      assert Opens("(") == 1 + Opens("("[1..]);
    }
  }

  lemma {:induction false} PrintOpens(c: Cmd, level: nat)
    requires Printable(c)
    ensures Opens(Print(c, level)) == Parens(c, level)
    decreases c
  {
    hide IsWord, Opens, Grouped;
    match c
    case Exec(argv) => WordsOpenNothing(argv);
    case Redir(_, _) =>
      CorePrintable(c);
      RedirsOpenNothing(Redirs(c));
      PrintOpens(Core(c), if Core(c).Exec? then 0 else 3);
      OpensAppend(Print(Core(c), if Core(c).Exec? then 0 else 3), PrintRedirs(Redirs(c)));
    case List(l, r) =>
      PrintOpens(l, 1);
      PrintOpens(r, 0);
      InfixOpens(Print(l, 1), ";", Print(r, 0));
      GroupedOpens(Print(l, 1) + ";" + Print(r, 0), level > 0);
    case Back(b) =>
      PrintOpens(b, 1);
      OpensAppend(Print(b, 1), "&");
      NoOpens("&");
      GroupedOpens(Print(b, 1) + "&", level > 1);
    case Pipe(l, r) =>
      PrintOpens(l, 3);
      PrintOpens(r, 2);
      InfixOpens(Print(l, 3), "|", Print(r, 2));
      GroupedOpens(Print(l, 3) + "|" + Print(r, 2), level > 2);
  }

  lemma InfixOpens(a: string, op: string, b: string)
    requires |op| == 1 && op[0] != '('
    ensures Opens(a + op + b) == Opens(a) + Opens(b)
  {
    NoOpens(op);
    OpensAppend(a, op);
    OpensAppend(a + op, b);
  }

  /** Closer contexts need more parentheses, one at most. */
  lemma ParensGrow(c: Cmd, level: nat)
    ensures Parens(c, level) <= Parens(c, level + 1) && Parens(c, level) <= Parens(c, 0) + 1
  {
  }

  /** Redirections cost no more than the parentheses of the block they follow. */
  lemma {:induction false} WrapParens(d: Cmd, rs: seq<Redirection>)
    ensures Parens(Wrap(d, rs), 3) <= Parens(d, 0) + 1
    ensures d.Exec? ==> Parens(Wrap(d, rs), 3) == 0
  {
    CoreOfWrap(d, rs);
    ParensGrow(d, 3);
    ParensGrow(Core(d), 3);
  }

  lemma {:induction false} CoreOfWrap(d: Cmd, rs: seq<Redirection>)
    ensures Core(Wrap(d, rs)) == Core(d)
    decreases |rs|
  {
    if rs != [] { CoreOfWrap(d, rs[..|rs| - 1]); }
  }

  lemma {:induction false} CommandOpens(c: Cmd, ts: seq<Token>)
    requires Command(c, ts)
    ensures Parens(c, 3) <= OpenToks(ts)
    decreases |ts|, 1
  {
    var simple, args, rs, d, k := CommandCases(c, ts);
    hide Command, Simple, Wrap, Parens, Line, OpenToks;
    if simple {
      WrapParens(Exec(args), rs);
    } else {
      WrapParens(d, rs);
      LineOpens(d, ts[1..k]);
      OpensAround(ts, k);
    }
  }

  lemma OpensAround(ts: seq<Token>, k: nat)
    requires 0 < k < |ts| && ts[0] == Op('(')
    ensures OpenToks(ts) >= 1 + OpenToks(ts[1..k])
  {
    assert ts[1..] == ts[1..k] + ts[k..];
    OpenToksAppend(ts[1..k], ts[k..]);
  }

  lemma {:induction false} PipelineOpens(c: Cmd, ts: seq<Token>)
    requires Pipeline(c, ts)
    ensures Parens(c, 2) <= OpenToks(ts)
    decreases |ts|, 2
  {
    var one, k := PipeCases(c, ts);
    hide Pipeline, Command;
    if one {
      CommandOpens(c, ts);
      ParensGrow(c, 2);
    } else {
      CommandOpens(c.left, ts[..k]);
      PipelineOpens(c.right, ts[k + 1..]);
      OpensJoined(ts, k);
    }
  }

  lemma OpensJoined(ts: seq<Token>, k: nat)
    requires k < |ts|
    ensures OpenToks(ts) >= OpenToks(ts[..k]) + OpenToks(ts[k + 1..])
  {
    assert ts == ts[..k] + ts[k..];
    OpenToksAppend(ts[..k], ts[k..]);
    assert ts[k..][1..] == ts[k + 1..];
  }

  lemma {:induction false} StatementOpens(c: Cmd, ts: seq<Token>)
    requires Statement(c, ts)
    ensures Parens(c, 1) <= OpenToks(ts)
    decreases |ts|, 3
  {
    if Pipeline(c, ts) {
      PipelineOpens(c, ts);
      ParensGrow(c, 1);
    } else {
      StatementCases(c, ts);
      StatementOpens(c.cmd, ts[..|ts| - 1]);
      OpensJoined(ts, |ts| - 1);
    }
  }

  lemma {:induction false} LineOpens(c: Cmd, ts: seq<Token>)
    requires Line(c, ts)
    ensures Parens(c, 0) <= OpenToks(ts)
    decreases |ts|, 4
  {
    var one, k := LineCases(c, ts);
    hide Line, Statement;
    if one {
      StatementOpens(c, ts);
      ParensGrow(c, 0);
    } else {
      StatementOpens(c.left, ts[..k]);
      LineOpens(c.right, ts[k + 1..]);
      OpensJoined(ts, k);
    }
  }

  /** No text for a command has fewer opening parentheses than its printing. */
  lemma FewestParentheses(s: string, c: Cmd)
    requires ParseCmd(s) == Ok(c, "")
    ensures Opens(Print(c, 0)) <= Opens(s)
  {
    hide ParseCmd, Print, Opens, Toks, Line, Printable;
    ParsedExactly(c);
    ParsedIffDerived(s, c);
    LineOpens(c, Toks(s));
    OpensAreTokens(s);
    PrintOpens(c, 0);
  }
}
