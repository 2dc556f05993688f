/**
  The shell's parser, sh.c: the grammar as functions on the text that remains, a
  printer with parentheses where the grammar needs them, and the cursor-moving
  code proved against the functions. Texts are C strings: the terminating NUL is
  their end.
 */
module Shell {

  const MAXARGS := 10

  datatype Mode = Input | Output | Append   // O_RDONLY on fd 0; truncating or not on fd 1

  datatype Redirection = Redirection(mode: Mode, file: string)

  datatype Cmd =
    | Exec(argv: seq<string>)
    | Redir(cmd: Cmd, to: Redirection)
    | Pipe(left: Cmd, right: Cmd)
    | List(left: Cmd, right: Cmd)
    | Back(cmd: Cmd)

  datatype Token = Eof | Op(c: char) | Appending | Word(w: string)

  /** A parse: its value and the text left, or the shell's panic. */
  datatype Result<T> = Ok(value: T, rest: string) | Panic(why: string)

  predicate Blank(c: char) { c == ' ' || c == '\t' || c == '\r' || c == '\n' || c == '\U{0B}' }

  predicate Symbol(c: char) { c == '<' || c == '|' || c == '>' || c == '&' || c == ';' || c == '(' || c == ')' }

  predicate WordChar(c: char) { !Blank(c) && !Symbol(c) }

  // ----- tokens -----

  function Skip(s: string): (r: string)
    ensures |r| <= |s| && (r == "" || !Blank(r[0]))
  {
    if s != "" && Blank(s[0]) then Skip(s[1..]) else s
  }

  /** The length of the longest prefix of word characters. */
  function WordLen(s: string): (n: nat)
    ensures n <= |s| && (n < |s| ==> !WordChar(s[n]))
    ensures forall i :: 0 <= i < n ==> WordChar(s[i])
  {
    if s != "" && WordChar(s[0]) then 1 + WordLen(s[1..]) else 0
  }

  /** gettoken: the token at the front and the text after it and its blanks. */
  function GetToken(s: string): (r: (Token, string))
    ensures |r.1| <= |s| && Skip(r.1) == r.1 && (r.0 != Eof ==> |r.1| < |s|)
    ensures r.0 == Eof <==> Skip(s) == ""
    ensures r.0.Word? ==> IsWord(r.0.w)
  {
    var t := Skip(s);
    if t == "" then (Eof, t)
    else if t[0] == '>' && |t| > 1 && t[1] == '>' then (Appending, Skip(t[2..]))
    else if Symbol(t[0]) then (Op(t[0]), Skip(t[1..]))
    else (Word(t[..WordLen(t)]), Skip(t[WordLen(t)..]))
  }

  function Spelling(t: Token): string {
    match t case Eof => "" case Op(c) => [c] case Appending => ">>" case Word(w) => w
  }

  ghost predicate AllBlank(s: string) {
    forall i :: 0 <= i < |s| ==> Blank(s[i])
  }

  /** Skip drops the first k characters, all of them blanks. */
  lemma {:induction false} SkipsTo(s: string) returns (k: nat)
    ensures k <= |s| && Skip(s) == s[k..] && forall i :: 0 <= i < k ==> Blank(s[i])
    decreases |s|
  {
    if s != "" && Blank(s[0]) {
      var l := SkipsTo(s[1..]);
      k := l + 1;
      assert s[1..][l..] == s[k..];
      assert forall i :: 1 <= i < k ==> s[i] == s[1..][i - 1];
    } else {
      k := 0;
    }
  }

  lemma SkipsBlanks(s: string) returns (b: string)
    ensures AllBlank(b) && s == b + Skip(s)
  {
    hide Skip, Blank;
    var k := SkipsTo(s);
    b := s[..k];
  }

  /** What gettoken makes of a text that starts with no blank: the token's spelling comes first, and blanks are skipped after it. */
  lemma OpSpelled(t: string)
    requires t != "" && Symbol(t[0]) && !(t[0] == '>' && |t| > 1 && t[1] == '>') && Skip(t) == t
    ensures GetToken(t) == (Op(t[0]), Skip(t[1..])) && t == [t[0]] + t[1..]
    ensures t[0] == '>' ==> t[1..] == "" || t[1..][0] != '>'
  {
  }

  lemma AppendingSpelled(t: string)
    requires |t| > 1 && t[0] == '>' && t[1] == '>' && Skip(t) == t
    ensures GetToken(t) == (Appending, Skip(t[2..])) && t == ">>" + t[2..]
  {
  }

  lemma WordSpelled(t: string)
    requires t != "" && !Symbol(t[0]) && Skip(t) == t
    ensures
      var n := WordLen(t);
      && GetToken(t) == (Word(t[..n]), Skip(t[n..])) && t == t[..n] + t[n..]
      && (t[n..] == "" || !WordChar(t[n..][0]))
  {
    hide WordLen, WordChar;
    var n := WordLen(t);
    assert n < |t| ==> t[n..][0] == t[n];
  }

  lemma SkipAgain(s: string)
    ensures Skip(Skip(s)) == Skip(s) && GetToken(Skip(s)) == GetToken(s)
    ensures Skip(s) == "" ==> GetToken(s) == (Eof, "")
  {
  }

  /** The token and the text behind it, before the blanks there are skipped. */
  lemma SpelledFirst(t: string) returns (u: string)
    requires Skip(t) == t
    ensures
      var (tok, rest) := GetToken(t);
      && t == Spelling(tok) + u && rest == Skip(u)
      && (tok.Word? ==> u == "" || !WordChar(u[0])) && (tok == Op('>') ==> u == "" || u[0] != '>')
  {
    SkipAgain(t);
    hide Skip, WordLen, GetToken, WordChar, Symbol;
    if t == "" {
      u := "";
    } else if |t| > 1 && t[0] == '>' && t[1] == '>' {
      AppendingSpelled(t);
      u := t[2..];
    } else if Symbol(t[0]) {
      OpSpelled(t);
      u := t[1..];
    } else {
      WordSpelled(t);
      u := t[WordLen(t)..];
    }
  }

  /** The token is spelled out between blanks at the front of the text, and is the longest there. */
  lemma TokenSpelled(s: string) returns (before: string, after: string)
    ensures
      var (tok, rest) := GetToken(s);
      && AllBlank(before) && AllBlank(after) && s == before + (Spelling(tok) + (after + rest))
      && (tok.Word? ==> after + rest == "" || !WordChar((after + rest)[0]))
      && (tok == Op('>') ==> after + rest == "" || (after + rest)[0] != '>')
  {
    hide Skip, WordLen, GetToken, AllBlank, WordChar, Spelling;
    SkipAgain(s);
    before := SkipsBlanks(s);
    var u := SpelledFirst(Skip(s));
    after := SkipsBlanks(u);
  }

  predicate IsWord(w: string) {
    w != "" && forall i :: 0 <= i < |w| ==> WordChar(w[i])
  }

  /** Words are made of what is neither blank nor one of the shell's symbols. */
  lemma WordsAre(w: string)
    ensures IsWord(w) <==> w != "" && forall i :: 0 <= i < |w| ==> w[i] !in " \t\r\n\U{0B}<|>&;()"
  {
    assert forall c: char :: WordChar(c) <==> c !in " \t\r\n\U{0B}<|>&;()";
  }

  /** peek: whether the next character that is not blank is one of toks. */
  predicate Peek(s: string, toks: set<char>) {
    Skip(s) != "" && Skip(s)[0] in toks
  }

  // ----- the grammar -----

  function Wrap(c: Cmd, rs: seq<Redirection>): Cmd
    decreases |rs|
  {
    if rs == [] then c else Redir(Wrap(c, rs[..|rs| - 1]), rs[|rs| - 1])
  }

  function ModeOf(t: Token): Mode {
    if t == Op('<') then Input else if t == Op('>') then Output else Append
  }

  function ParseRedirs(s: string, rs: seq<Redirection>): (r: Result<seq<Redirection>>)
    ensures r.Ok? ==> |r.rest| <= |s|
    decreases |s|
  {
    if Peek(s, {'<', '>'}) then
      var (tok, s1) := GetToken(s);
      var (file, s2) := GetToken(s1);
      if file.Word? then ParseRedirs(s2, rs + [Redirection(ModeOf(tok), file.w)])
      else Panic("missing file for redirection")
    else Ok(rs, Skip(s))
  }

  function ParseArgs(s: string, args: seq<string>, rs: seq<Redirection>): (r: Result<Cmd>)
    ensures r.Ok? ==> |r.rest| <= |s|
    decreases |s|
  {
    var (tok, s1) := GetToken(s);
    if Peek(s, {'|', ')', '&', ';'}) || tok == Eof then Ok(Wrap(Exec(args), rs), Skip(s))
    else if !tok.Word? then Panic("syntax")
    else if |args| + 1 >= MAXARGS then Panic("too many args")
    else
      var more := ParseRedirs(s1, rs);
      if more.Ok? then ParseArgs(more.rest, args + [tok.w], more.value) else Panic(more.why)
  }

  function ParseExec(s: string): (r: Result<Cmd>)
    ensures r.Ok? ==> |r.rest| <= |s|
    decreases |s|, 1
  {
    if Peek(s, {'('}) then ParseBlock(s)
    else
      var first := ParseRedirs(s, []);
      if first.Ok? then ParseArgs(first.rest, [], first.value) else Panic(first.why)
  }

  function ParseBlock(s: string): (r: Result<Cmd>)
    ensures r.Ok? ==> |r.rest| <= |s|
    decreases |s|, 0
  {
    if !Peek(s, {'('}) then Panic("parseblock")
    else
      var inner := ParseLine(GetToken(s).1);
      if !inner.Ok? then inner
      else if !Peek(inner.rest, {')'}) then Panic("syntax - missing )")
      else
        var rs := ParseRedirs(GetToken(inner.rest).1, []);
        if rs.Ok? then Ok(Wrap(inner.value, rs.value), rs.rest) else Panic(rs.why)
  }

  function ParsePipe(s: string): (r: Result<Cmd>)
    ensures r.Ok? ==> |r.rest| <= |s|
    decreases |s|, 2
  {
    var first := ParseExec(s);
    if first.Ok? && Peek(first.rest, {'|'}) then
      var others := ParsePipe(GetToken(first.rest).1);
      if others.Ok? then Ok(Pipe(first.value, others.value), others.rest) else others
    else if first.Ok? then Ok(first.value, Skip(first.rest)) else first
  }

  function ParseBacks(c: Cmd, s: string): (r: Result<Cmd>)
    ensures r.Ok? && |r.rest| <= |s|
    decreases |s|
  {
    if Peek(s, {'&'}) then ParseBacks(Back(c), GetToken(s).1) else Ok(c, Skip(s))
  }

  function ParseLine(s: string): (r: Result<Cmd>)
    ensures r.Ok? ==> |r.rest| <= |s|
    decreases |s|, 3
  {
    var piped := ParsePipe(s);
    var first := if piped.Ok? then ParseBacks(piped.value, piped.rest) else piped;
    if first.Ok? && Peek(first.rest, {';'}) then
      var others := ParseLine(GetToken(first.rest).1);
      if others.Ok? then Ok(List(first.value, others.value), others.rest) else others
    else first
  }

  function ParseCmd(s: string): Result<Cmd> {
    var r := ParseLine(s);
    if !r.Ok? then r else if Skip(r.rest) != "" then Panic("syntax") else Ok(r.value, "")
  }

  // ----- the printer -----

  /** The command under any redirections, and the redirections, innermost first. */
  function Core(c: Cmd): (r: Cmd)
    ensures !r.Redir? && (r == c || r < c)
  {
    if c.Redir? then Core(c.cmd) else c
  }

  function Redirs(c: Cmd): seq<Redirection> {
    if c.Redir? then Redirs(c.cmd) + [c.to] else []
  }

  function PrintArgs(args: seq<string>): string {
    if args == [] then "" else args[0] + " " + PrintArgs(args[1..])
  }

  function Arrow(m: Mode): string {
    match m case Input => "<" case Output => ">" case Append => ">>"
  }

  function PrintRedir(r: Redirection): string {
    Arrow(r.mode) + r.file + " "
  }

  function PrintRedirs(rs: seq<Redirection>): string {
    if rs == [] then "" else PrintRedir(rs[0]) + PrintRedirs(rs[1..])
  }

  function Grouped(s: string, group: bool): string {
    if group then "(" + s + ")" else s
  }

  /** The text of c where the grammar allows a line (0), a line without `;` (1), a pipeline (2) or one command (3). */
  function Print(c: Cmd, level: nat): string {
    match c
    case Exec(argv) => PrintArgs(argv)
    case Redir(_, _) => Print(Core(c), if Core(c).Exec? then 0 else 3) + PrintRedirs(Redirs(c))
    case List(l, r) => Grouped(Print(l, 1) + ";" + Print(r, 0), level > 0)
    case Back(b) => Grouped(Print(b, 1) + "&", level > 1)
    case Pipe(l, r) => Grouped(Print(l, 3) + "|" + Print(r, 2), level > 2)
  }

  /** Commands the shell can be asked for: every word is one, and argv is not full. */
  predicate Printable(c: Cmd) {
    match c
    case Exec(argv) => |argv| < MAXARGS && forall i :: 0 <= i < |argv| ==> IsWord(argv[i])
    case Redir(d, to) => Printable(d) && IsWord(to.file)
    case List(l, r) => Printable(l) && Printable(r)
    case Pipe(l, r) => Printable(l) && Printable(r)
    case Back(b) => Printable(b)
  }

  // ----- printing, then parsing -----

  /** Text that ends a command: nothing, or one of the closing symbols. */
  predicate Stop(s: string, closers: set<char>) {
    s == "" || s[0] in closers
  }

  lemma TokenWord(w: string, s: string)
    requires IsWord(w) && (s == "" || !WordChar(s[0]))
    ensures Skip(w + s) == w + s && GetToken(w + s) == (Word(w), Skip(s))
  {
    WordLenExact(w, s);
    assert (w + s)[..|w|] == w && (w + s)[|w|..] == s;
  }

  lemma {:induction false} WordLenExact(w: string, s: string)
    requires forall i :: 0 <= i < |w| ==> WordChar(w[i])
    requires s == "" || !WordChar(s[0])
    ensures WordLen(w + s) == |w|
  {
    if w != "" {
      assert (w + s)[1..] == w[1..] + s;
      WordLenExact(w[1..], s);
    } else {
      assert w + s == s;
    }
  }

  lemma TokenOp(c: char, s: string)
    requires Symbol(c) && (c == '>' ==> s == "" || s[0] != '>')
    ensures Skip([c] + s) == [c] + s && GetToken([c] + s) == (Op(c), Skip(s))
  {
    assert ([c] + s)[1..] == s;
  }

  lemma SkipSpace(s: string)
    ensures Skip(" " + s) == Skip(s)
  {
    assert (" " + s)[1..] == s;
  }

  lemma RedirsStep(s: string, rs: seq<Redirection>)
    ensures !Peek(s, {'<', '>'}) ==> ParseRedirs(s, rs) == Ok(rs, Skip(s))
    ensures
      var (tok, s1) := GetToken(s);
      var (file, s2) := GetToken(s1);
      Peek(s, {'<', '>'}) && file.Word? ==> ParseRedirs(s, rs) == ParseRedirs(s2, rs + [Redirection(ModeOf(tok), file.w)])
  {
  }

  lemma {:induction false} RedirsRoundTrip(rs: seq<Redirection>, before: seq<Redirection>, s: string)
    requires forall i :: 0 <= i < |rs| ==> IsWord(rs[i].file)
    requires Skip(s) == s && !Peek(s, {'<', '>'})
    ensures ParseRedirs(PrintRedirs(rs) + s, before) == Ok(before + rs, s)
    ensures Skip(PrintRedirs(rs) + s) == PrintRedirs(rs) + s
  {
    hide ParseRedirs, Skip, Peek, GetToken, IsWord, PrintRedir, ModeOf;
    RedirsStep(PrintRedirs(rs) + s, before);
    if rs == [] {
      assert PrintRedirs(rs) + s == s;
      assert before + rs == before;
    } else {
      var r, t := rs[0], PrintRedirs(rs[1..]) + s;
      RedirsRoundTrip(rs[1..], before + [r], s);
      OneRedir(r, t);
      assert PrintRedirs(rs) + s == PrintRedir(r) + t;
      assert before + [r] + rs[1..] == before + rs;
    }
  }

  lemma OneRedir(r: Redirection, t: string)
    requires IsWord(r.file) && Skip(t) == t
    ensures Skip(PrintRedir(r) + t) == PrintRedir(r) + t && Peek(PrintRedir(r) + t, {'<', '>'})
    ensures
      var (tok, s1) := GetToken(PrintRedir(r) + t);
      ModeOf(tok) == r.mode && GetToken(s1) == (Word(r.file), t)
  {
    assert PrintRedir(r) + t == Arrow(r.mode) + (r.file + (" " + t)) by {
      assert PrintRedir(r) == Arrow(r.mode) + r.file + " ";
      Associate(Arrow(r.mode), r.file, " ", t);
    }
    assert WordChar(r.file[0]);
    hide *;
    SkipSpace(t);
    TokenWord(r.file, " " + t);
    ArrowToken(r.mode, r.file + (" " + t));
  }

  lemma ArrowToken(m: Mode, s: string)
    requires s != "" && WordChar(s[0])
    ensures Skip(Arrow(m) + s) == Arrow(m) + s && Peek(Arrow(m) + s, {'<', '>'})
    ensures ModeOf(GetToken(Arrow(m) + s).0) == m && GetToken(Arrow(m) + s).1 == Skip(s)
  {
    hide WordLen;
    match m
    case Input => TokenOp('<', s);
    case Output => TokenOp('>', s);
    case Append => TokenAppend(s);
  }

  lemma TokenAppend(s: string)
    ensures Skip(">>" + s) == ">>" + s && GetToken(">>" + s) == (Appending, Skip(s))
  {
    assert (">>" + s)[2..] == s;
  }

  lemma ArgsStep(s: string, args: seq<string>, rs: seq<Redirection>)
    ensures Stop(s, {'|', ')', '&', ';'}) ==> ParseArgs(s, args, rs) == Ok(Wrap(Exec(args), rs), s)
    ensures
      var (tok, s1) := GetToken(s);
      var more := ParseRedirs(s1, rs);
      !Peek(s, {'|', ')', '&', ';'}) && tok.Word? && |args| + 1 < MAXARGS && more.Ok? ==>
        ParseArgs(s, args, rs) == ParseArgs(more.rest, args + [tok.w], more.value)
  {
  }

  lemma PrintArgsCons(args: seq<string>, t: string)
    requires args != []
    ensures PrintArgs(args) + t == args[0] + (" " + (PrintArgs(args[1..]) + t))
  {
    Associate(args[0], " ", PrintArgs(args[1..]), t);
  }

  lemma PrintArgsNone(t: string)
    ensures PrintArgs([]) + t == t
  {
  }

  lemma Associate(a: string, b: string, c: string, d: string)
    ensures a + b + c + d == a + (b + (c + d))
  {
  }

  /** parseexec takes the word w and the redirections after it. */
  lemma ArgTaken(w: string, t: string, before: seq<string>, rs: seq<Redirection>, u: string)
    requires IsWord(w) && |before| + 1 < MAXARGS && Skip(t) == t && ParseRedirs(t, []) == Ok(rs, u)
    ensures ParseArgs(w + (" " + t), before, []) == ParseArgs(u, before + [w], rs)
  {
    FirstWord(w, t);
    hide ParseArgs, ParseRedirs, Skip, Peek, GetToken, IsWord;
    ArgsStep(w + (" " + t), before, []);
  }

  lemma NoRedirs(args: seq<string>, tail: string)
    requires args != [] && IsWord(args[0])
    ensures Skip(PrintArgs(args) + tail) == PrintArgs(args) + tail
    ensures ParseRedirs(PrintArgs(args) + tail, []) == Ok([], PrintArgs(args) + tail)
  {
    PrintArgsCons(args, tail);
    FirstWord(args[0], PrintArgs(args[1..]) + tail);
    hide ParseRedirs, Skip, Peek, GetToken, IsWord, PrintArgs;
    RedirsStep(PrintArgs(args) + tail, []);
  }

  /** Ten words are too many, whatever follows. */
  lemma {:induction false} ArgsOverflow(args: seq<string>, before: seq<string>, tail: string)
    requires |before| < 10 <= |before| + |args| && (forall i :: 0 <= i < |args| ==> IsWord(args[i])) && Skip(tail) == tail
    ensures ParseArgs(PrintArgs(args) + tail, before, []) == Panic("too many args")
    decreases |args|
  {
    var w, others := args[0], args[1..];
    PrintArgsCons(args, tail);
    var t := PrintArgs(others) + tail;
    hide ParseRedirs, Skip, PrintArgs, IsWord;
    if |before| < 9 {
      NoRedirs(others, tail);
      hide ParseArgs;
      ArgTaken(w, t, before, [], t);
      ArgsOverflow(others, before + [w], tail);
    } else {
      LastStraw(w, t, before);
    }
  }

  lemma LastStraw(w: string, t: string, before: seq<string>)
    requires IsWord(w) && |before| == 9
    ensures ParseArgs(w + (" " + t), before, []) == Panic("too many args")
  {
    assert (" " + t)[0] == ' ';
    TokenWord(w, " " + t);
    assert !Peek(w + (" " + t), {'|', ')', '&', ';'}) by { assert (w + (" " + t))[0] == w[0]; }
    hide Skip, GetToken, Peek;
  }

  lemma {:induction false} ArgsRoundTrip(args: seq<string>, before: seq<string>, rs: seq<Redirection>, s: string)
    requires args != [] && |before| + |args| < MAXARGS
    requires forall i :: 0 <= i < |args| ==> IsWord(args[i])
    requires forall i :: 0 <= i < |rs| ==> IsWord(rs[i].file)
    requires Stop(s, {'|', ')', '&', ';'})
    ensures ParseArgs(PrintArgs(args) + (PrintRedirs(rs) + s), before, []) == Ok(Wrap(Exec(before + args), rs), s)
  {
    hide *;
    var w, tail, others := args[0], PrintRedirs(rs) + s, args[1..];
    PrintArgsCons(args, tail);
    StopFacts(s);
    if |args| > 1 {
      NoRedirs(others, tail);
      ArgTaken(w, PrintArgs(others) + tail, before, [], PrintArgs(others) + tail);
      ArgsRoundTrip(others, before + [w], rs, s);
      assert before + [w] + others == before + args;
    } else {
      assert others == [] && before + [w] == before + args;
      PrintArgsNone(tail);
      RedirsRoundTrip(rs, [], s);
      assert [] + rs == rs;
      ArgTaken(w, tail, before, rs, s);
      ArgsStep(s, before + [w], rs);
    }
  }

  lemma FirstWord(w: string, t: string)
    requires IsWord(w)
    ensures
      var all := w + (" " + t);
      && Skip(all) == all && GetToken(all) == (Word(w), Skip(t))
      && !Peek(all, {'<', '>'}) && !Peek(all, {'('}) && !Peek(all, {'|', ')', '&', ';'})
  {
    SkipSpace(t);
    TokenWord(w, " " + t);
    assert (w + (" " + t))[0] == w[0] && WordChar(w[0]);
  }

  lemma StopFacts(s: string)
    requires Stop(s, {'|', ')', '&', ';'})
    ensures Skip(s) == s && !Peek(s, {'<', '>'}) && !Peek(s, {'('})
  {
  }

  lemma ExecRoundTrip(argv: seq<string>, rs: seq<Redirection>, s: string)
    requires |argv| < MAXARGS && forall i :: 0 <= i < |argv| ==> IsWord(argv[i])
    requires forall i :: 0 <= i < |rs| ==> IsWord(rs[i].file)
    requires Stop(s, {'|', ')', '&', ';'})
    ensures ParseExec(PrintArgs(argv) + (PrintRedirs(rs) + s)) == Ok(Wrap(Exec(argv), rs), s)
  {
    StopFacts(s);
    hide ParseArgs, ParseRedirs, ParseBlock, Skip, Peek, GetToken, IsWord, PrintRedirs, PrintArgs, Wrap, Stop;
    var t := PrintRedirs(rs) + s;
    assert [] + rs == rs && [] + argv == argv;
    if argv == [] {
      PrintArgsNone(t);
      FirstOfRedirs(rs, s);
      RedirsRoundTrip(rs, [], s);
      ArgsStep(s, [], rs);
    } else {
      var u := PrintArgs(argv[1..]) + t;
      PrintArgsCons(argv, t);
      FirstWord(argv[0], u);
      RedirsStep(argv[0] + (" " + u), []);
      ArgsRoundTrip(argv, [], rs, s);
    }
  }

  lemma FirstOfRedirs(rs: seq<Redirection>, s: string)
    requires Stop(s, {'|', ')', '&', ';'})
    ensures !Peek(PrintRedirs(rs) + s, {'('})
  {
    if rs != [] {
      var t := PrintRedirs(rs) + s;
      assert t != "" && t[0] in "<>";
    }
  }

  lemma {:induction false} WrapCore(c: Cmd)
    ensures c == Wrap(Core(c), Redirs(c))
  {
    if c.Redir? {
      WrapCore(c.cmd);
      assert Redirs(c)[..|Redirs(c)| - 1] == Redirs(c.cmd);
    }
  }

  lemma {:induction false} CorePrintable(c: Cmd)
    requires Printable(c)
    ensures Printable(Core(c)) && forall i :: 0 <= i < |Redirs(c)| ==> IsWord(Redirs(c)[i].file)
  {
    if c.Redir? { CorePrintable(c.cmd); }
  }

  /** Printed text does not start with a blank. */
  lemma {:induction false} PrintClean(c: Cmd, level: nat, s: string)
    requires Printable(c) && Skip(s) == s
    ensures Skip(Print(c, level) + s) == Print(c, level) + s
    decreases c
  {
    hide IsWord, PrintArgs, PrintRedirs, PrintRedir, Grouped;
    match c
    case Exec(argv) => ArgsClean(argv, s);
    case Redir(_, _) =>
      var core, rs := Core(c), Redirs(c);
      CorePrintable(c);
      RedirsClean(rs, s);
      PrintClean(core, if core.Exec? then 0 else 3, PrintRedirs(rs) + s);
      assert Print(c, level) + s == Print(core, if core.Exec? then 0 else 3) + (PrintRedirs(rs) + s);
    case List(l, r) =>
      PrintClean(l, 1, ";" + Print(r, 0) + s);
      assert Print(l, 1) + ";" + Print(r, 0) == Print(l, 1) + (";" + Print(r, 0));
      GroupClean(Print(l, 1), ";" + Print(r, 0), s, level > 0);
    case Back(b) =>
      PrintClean(b, 1, "&" + s);
      GroupClean(Print(b, 1), "&", s, level > 1);
    case Pipe(l, r) =>
      PrintClean(l, 3, "|" + Print(r, 2) + s);
      assert Print(l, 3) + "|" + Print(r, 2) == Print(l, 3) + ("|" + Print(r, 2));
      GroupClean(Print(l, 3), "|" + Print(r, 2), s, level > 2);
  }

  lemma GroupClean(a: string, b: string, s: string, group: bool)
    requires Skip(a + (b + s)) == a + (b + s)
    ensures Skip(Grouped(a + b, group) + s) == Grouped(a + b, group) + s
  {
    if group {
      assert (Grouped(a + b, group) + s)[0] == '(';
    } else {
      assert Grouped(a + b, group) + s == a + (b + s);
    }
  }

  lemma ArgsClean(args: seq<string>, s: string)
    requires Skip(s) == s && forall i :: 0 <= i < |args| ==> IsWord(args[i])
    ensures Skip(PrintArgs(args) + s) == PrintArgs(args) + s
  {
    if args == [] { PrintArgsNone(s); } else { NoRedirs(args, s); }
  }

  lemma RedirsClean(rs: seq<Redirection>, s: string)
    requires Skip(s) == s
    ensures Skip(PrintRedirs(rs) + s) == PrintRedirs(rs) + s
  {
    if rs == [] {
      assert PrintRedirs(rs) + s == s;
    } else {
      assert PrintRedirs(rs)[0] == Arrow(rs[0].mode)[0];
      assert (PrintRedirs(rs) + s)[0] == Arrow(rs[0].mode)[0];
    }
  }

  // How far level is from the one where c needs no parentheses.
  function Distance(c: Cmd, level: nat): nat {
    var own := if c.List? then 0 else if c.Back? then 1 else if c.Pipe? then 2 else 3;
    if level <= own then own - level else 8 - (if level < 3 then level else 3)
  }

  lemma BlockStep(u: string)
    requires Skip(u) == u
    ensures
      var inner := ParseLine(u);
      inner.Ok? && Peek(inner.rest, {')'}) ==>
        var rs := ParseRedirs(GetToken(inner.rest).1, []);
        rs.Ok? ==> ParseExec("(" + u) == Ok(Wrap(inner.value, rs.value), rs.rest)
  {
    TokenOp('(', u);
    hide GetToken, ParseLine, ParseRedirs, ParseArgs, Wrap;
    assert Peek("(" + u, {'('});
  }

  lemma {:induction false} BlockRoundTrip(c: Cmd, rs: seq<Redirection>, s: string)
    requires Printable(c) && !c.Exec? && !c.Redir?
    requires Stop(s, {'|', ')', '&', ';'}) && forall i :: 0 <= i < |rs| ==> IsWord(rs[i].file)
    ensures ParseExec("(" + Print(c, 0) + ")" + (PrintRedirs(rs) + s)) == Ok(Wrap(c, rs), s)
    decreases c, 4
  {
    assert Distance(c, 0) < 4;
    hide *;
    var t := PrintRedirs(rs) + s;
    var u := Print(c, 0) + (")" + t);
    Associate("(", Print(c, 0), ")", t);
    StopFacts(s);
    RedirsRoundTrip(rs, [], s);
    assert [] + rs == rs;
    Closing(t);
    PrintClean(c, 0, ")" + t);
    LineRoundTrip(c, ")" + t);
    BlockStep(u);
  }

  lemma Closing(t: string)
    requires Skip(t) == t
    ensures Skip(")" + t) == ")" + t && Stop(")" + t, {')'}) && Peek(")" + t, {')'}) && GetToken(")" + t).1 == t
  {
    TokenOp(')', t);
  }

  lemma {:induction false} CommandRoundTrip(c: Cmd, s: string)
    requires Printable(c) && Stop(s, {'|', ')', '&', ';'})
    ensures ParseExec(Print(c, 3) + s) == Ok(c, s)
    decreases c, Distance(c, 3)
  {
    hide ParseExec, Wrap, IsWord, PrintArgs, PrintRedir;
    var core, rs := Core(c), Redirs(c);
    CorePrintable(c);
    WrapCore(c);
    assert Print(c, 3) + s == Print(core, if core.Exec? then 0 else 3) + (PrintRedirs(rs) + s) by {
      if !c.Redir? { assert PrintRedirs(rs) + s == s; }
    }
    if core.Exec? {
      ExecRoundTrip(core.argv, rs, s);
    } else {
      BlockRoundTrip(core, rs, s);
    }
  }

  lemma PipeStep(s: string, c: Cmd, t: string)
    requires ParseExec(s) == Ok(c, t) && Skip(t) == t
    ensures !Peek(t, {'|'}) ==> ParsePipe(s) == Ok(c, t)
    ensures
      var others := ParsePipe(GetToken(t).1);
      Peek(t, {'|'}) && others.Ok? ==> ParsePipe(s) == Ok(Pipe(c, others.value), others.rest)
  {
    hide ParseExec, GetToken, Skip;
  }

  /** An operator in front of printed text. */
  lemma Operator(op: char, t: string)
    requires op in {'|', '&', ';'} && Skip(t) == t
    ensures Skip([op] + t) == [op] + t && Peek([op] + t, {op}) && GetToken([op] + t).1 == t
    ensures Stop([op] + t, {'|', ')', '&', ';'}) && Stop([op] + t, {')', op})
  {
    TokenOp(op, t);
  }

  lemma Widen(s: string, a: set<char>, b: set<char>)
    requires Stop(s, a) && a <= b
    ensures Stop(s, b)
  {
  }

  lemma {:induction false} PipeRoundTrip(c: Cmd, s: string)
    requires Printable(c) && Stop(s, {')', '&', ';'})
    ensures ParsePipe(Print(c, 2) + s) == Ok(c, s)
    decreases c, Distance(c, 2)
  {
    hide ParsePipe, ParseExec, GetToken, Skip, Print;
    Widen(s, {')', '&', ';'}, {'|', ')', '&', ';'});
    StopFacts(s);
    PrintForms(c);
    assert !Peek(s, {'|'});
    hide Peek, Stop;
    if c.Pipe? {
      var t := Print(c.right, 2) + s;
      PrintClean(c.right, 2, s);
      Operator('|', t);
      CommandRoundTrip(c.left, "|" + t);
      PipeRoundTrip(c.right, s);
      Infix(Print(c.left, 3), "|", Print(c.right, 2), s);
      PipeStep(Print(c, 2) + s, c.left, "|" + t);
    } else {
      CommandRoundTrip(c, s);
      PipeStep(Print(c, 3) + s, c, s);
    }
  }

  lemma Infix(a: string, op: string, b: string, s: string)
    ensures a + op + b + s == a + (op + (b + s))
  {
  }

  /** Where each kind of command needs no parentheses. */
  lemma PrintForms(c: Cmd)
    ensures c.Pipe? ==> Print(c, 2) == Print(c.left, 3) + "|" + Print(c.right, 2)
    ensures c.Back? ==> Print(c, 1) == Print(c.cmd, 1) + "&"
    ensures c.List? ==> Print(c, 0) == Print(c.left, 1) + ";" + Print(c.right, 0)
    ensures !c.Pipe? ==> Print(c, 2) == Print(c, 3)
    ensures !c.Back? ==> Print(c, 1) == Print(c, 2)
    ensures !c.List? ==> Print(c, 0) == Print(c, 1)
  {
  }

  lemma BacksStep(c: Cmd, s: string)
    requires Skip(s) == s
    ensures ParseBacks(c, "&" + s) == ParseBacks(Back(c), s)
    ensures !Peek(s, {'&'}) ==> ParseBacks(c, s) == Ok(c, s)
  {
    TokenOp('&', s);
  }

  lemma {:induction false} BacksRoundTrip(c: Cmd, s: string)
    requires Printable(c) && Stop(s, {')', '&', ';'})
    ensures ParsePipe(Print(c, 1) + s).Ok?
    ensures ParseBacks(ParsePipe(Print(c, 1) + s).value, ParsePipe(Print(c, 1) + s).rest) == ParseBacks(c, s)
    decreases c, Distance(c, 1)
  {
    hide ParsePipe, ParseBacks, GetToken, Skip, Print;
    PrintForms(c);
    if c.Back? {
      Widen(s, {')', '&', ';'}, {'|', ')', '&', ';'});
      StopFacts(s);
      BacksRoundTrip(c.cmd, "&" + s);
      BacksStep(c.cmd, s);
      assert Print(c, 1) + s == Print(c.cmd, 1) + ("&" + s);
    } else {
      PipeRoundTrip(c, s);
    }
  }

  lemma LineStep(s: string, c: Cmd, t: string)
    requires ParsePipe(s).Ok? && ParseBacks(ParsePipe(s).value, ParsePipe(s).rest) == Ok(c, t)
    ensures !Peek(t, {';'}) ==> ParseLine(s) == Ok(c, t)
    ensures
      var others := ParseLine(GetToken(t).1);
      Peek(t, {';'}) && others.Ok? ==> ParseLine(s) == Ok(List(c, others.value), others.rest)
  {
    hide ParsePipe, ParseBacks, GetToken, Skip;
  }

  lemma {:induction false} LineRoundTrip(c: Cmd, s: string)
    requires Printable(c) && Stop(s, {')'})
    ensures ParseLine(Print(c, 0) + s) == Ok(c, s)
    decreases c, Distance(c, 0)
  {
    hide ParsePipe, ParseBacks, ParseLine, GetToken, Skip, Print;
    Widen(s, {')'}, {')', '&', ';'});
    Widen(s, {')'}, {'|', ')', '&', ';'});
    StopFacts(s);
    PrintForms(c);
    assert !Peek(s, {';'}) && !Peek(s, {'&'});
    if c.List? {
      var t := Print(c.right, 0) + s;
      PrintClean(c.right, 0, s);
      Operator(';', t);
      assert !Peek(";" + t, {'&'});
      Widen(";" + t, {')', ';'}, {')', '&', ';'});
      hide Peek, Stop;
      BacksRoundTrip(c.left, ";" + t);
      BacksStep(c.left, ";" + t);
      LineRoundTrip(c.right, s);
      Infix(Print(c.left, 1), ";", Print(c.right, 0), s);
      LineStep(Print(c, 0) + s, c.left, ";" + t);
    } else {
      hide Peek, Stop;
      BacksRoundTrip(c, s);
      BacksStep(c, s);
      LineStep(Print(c, 1) + s, c, s);
    }
  }

  /** Printing a command and parsing the text gives the command back. */
  lemma RoundTrip(c: Cmd)
    requires Printable(c)
    ensures ParseCmd(Print(c, 0)) == Ok(c, "")
  {
    LineRoundTrip(c, "");
    assert Print(c, 0) + "" == Print(c, 0);
  }

  /** A command of plain words is parsed exactly when there are at most nine of them. */
  lemma ArgLimit(args: seq<string>)
    requires forall i :: 0 <= i < |args| ==> IsWord(args[i])
    ensures |args| <= 9 ==> ParseCmd(PrintArgs(args)) == Ok(Exec(args), "")
    ensures |args| > 9 ==> ParseCmd(PrintArgs(args)) == Panic("too many args")
  {
    if |args| <= 9 {
      RoundTrip(Exec(args));
    } else {
      var s := PrintArgs(args);
      assert s + "" == s;
      ArgsOverflow(args, [], "");
      NoRedirs(args, "");
      FirstWord(args[0], PrintArgs(args[1..]) + "");
      PrintArgsCons(args, "");
      PanicsThrough(s);
    }
  }

  lemma PanicsThrough(s: string)
    requires !Peek(s, {'('}) && ParseRedirs(s, []) == Ok([], s) && ParseArgs(s, [], []) == Panic("too many args")
    ensures ParseCmd(s) == Panic("too many args")
  {
    assert ParseExec(s) == Panic("too many args");
    assert ParsePipe(s) == Panic("too many args");
    assert ParseLine(s) == Panic("too many args");
  }

  /** What the operators make of three words: who is whose child, and which end nests. */
  lemma SpelledOut(a: string, b: string, c: string)
    requires IsWord(a) && IsWord(b) && IsWord(c)
    ensures ParseCmd(a + " " + b + " ") == Ok(Exec([a, b]), "")
    ensures ParseCmd(a + " ;" + b + " ;" + c + " ") == Ok(List(Exec([a]), List(Exec([b]), Exec([c]))), "")
    ensures ParseCmd(a + " |" + b + " |" + c + " ") == Ok(Pipe(Exec([a]), Pipe(Exec([b]), Exec([c]))), "")
    ensures ParseCmd(a + " |" + b + " ;" + c + " &") == Ok(List(Pipe(Exec([a]), Exec([b])), Back(Exec([c]))), "")
    ensures ParseCmd("(" + a + " ;" + b + " )|" + c + " ") == Ok(Pipe(List(Exec([a]), Exec([b])), Exec([c])), "")
  {
    var x, y, z := Exec([a]), Exec([b]), Exec([c]);
    PrintsArgs(a, b);
    PrintsLists(a, b, c);
    PrintsPipes(a, b, c);
    PrintsBack(a, b, c);
    PrintsGroup(a, b, c);
    hide Print, ParseCmd, IsWord;
    RoundTrip(Exec([a, b]));
    RoundTrip(List(x, List(y, z)));
    RoundTrip(Pipe(x, Pipe(y, z)));
    RoundTrip(List(Pipe(x, y), Back(z)));
    RoundTrip(Pipe(List(x, y), z));
  }

  lemma PrintsArgs(a: string, b: string)
    ensures Print(Exec([a, b]), 0) == a + " " + b + " "
  {
    OneWord(b);
    assert [a, b][1..] == [b];
  }

  lemma PrintsLists(a: string, b: string, c: string)
    ensures Print(List(Exec([a]), List(Exec([b]), Exec([c]))), 0) == a + " ;" + b + " ;" + c + " "
  {
    OneWord(a);
    OneWord(b);
    OneWord(c);
    hide PrintArgs;
    assert Print(List(Exec([b]), Exec([c])), 0) == b + " ;" + c + " ";
  }

  lemma PrintsPipes(a: string, b: string, c: string)
    ensures Print(Pipe(Exec([a]), Pipe(Exec([b]), Exec([c]))), 0) == a + " |" + b + " |" + c + " "
  {
    OneWord(a);
    OneWord(b);
    OneWord(c);
    hide PrintArgs;
    assert Print(Pipe(Exec([b]), Exec([c])), 2) == b + " |" + c + " ";
  }

  lemma PrintsBack(a: string, b: string, c: string)
    ensures Print(List(Pipe(Exec([a]), Exec([b])), Back(Exec([c]))), 0) == a + " |" + b + " ;" + c + " &"
  {
    OneWord(a);
    OneWord(b);
    OneWord(c);
    hide PrintArgs;
    assert Print(Pipe(Exec([a]), Exec([b])), 1) == a + " |" + b + " ";
    assert Print(Back(Exec([c])), 0) == c + " &";
  }

  lemma PrintsGroup(a: string, b: string, c: string)
    ensures Print(Pipe(List(Exec([a]), Exec([b])), Exec([c])), 0) == "(" + a + " ;" + b + " )|" + c + " "
  {
    OneWord(a);
    OneWord(b);
    OneWord(c);
    hide PrintArgs;
    assert Print(List(Exec([a]), Exec([b])), 3) == "(" + a + " ;" + b + " )";
  }

  lemma OneWord(w: string)
    ensures PrintArgs([w]) == w + " "
  {
    assert [w][1..] == [];
  }

  /** Redirections nest in the order they are written, the last one outermost; < reads, > truncates and >> does not. */
  lemma RedirsSpelledOut(a: string, x: string, y: string, z: string)
    requires IsWord(a) && IsWord(x) && IsWord(y) && IsWord(z)
    ensures ParseCmd(a + " >" + x + " <" + y + " >>" + z + " ") ==
      Ok(Redir(Redir(Redir(Exec([a]), Redirection(Output, x)), Redirection(Input, y)), Redirection(Append, z)), "")
  {
    var r1, r2, r3 := Redirection(Output, x), Redirection(Input, y), Redirection(Append, z);
    var c := Redir(Redir(Redir(Exec([a]), r1), r2), r3);
    PrintsRedirs(a, r1, r2, r3);
    assert Printable(c) by { assert Printable(c.cmd.cmd); }
    hide ParseCmd, Print, Printable, IsWord;
    RoundTrip(c);
    Joined(a, x, y, z);
  }

  lemma Joined(a: string, x: string, y: string, z: string)
    ensures a + " " + (">" + x + " " + ("<" + y + " " + (">>" + z + " "))) == a + " >" + x + " <" + y + " >>" + z + " "
  {
    var t, u := ">>" + z + " ", "<" + y + " >>" + z + " ";
    assert "<" + y + " " + t == u;
    var v := ">" + x + " <" + y + " >>" + z + " ";
    assert ">" + x + " " + u == v;
    assert a + " " + v == a + " >" + x + " <" + y + " >>" + z + " ";
  }

  lemma PrintsRedirs(a: string, r1: Redirection, r2: Redirection, r3: Redirection)
    ensures Print(Redir(Redir(Redir(Exec([a]), r1), r2), r3), 0) == a + " " + (PrintRedir(r1) + (PrintRedir(r2) + PrintRedir(r3)))
  {
    var c := Redir(Redir(Redir(Exec([a]), r1), r2), r3);
    OneWord(a);
    hide PrintArgs, PrintRedir;
    assert Core(c) == Exec([a]) by { assert Core(c.cmd.cmd) == Exec([a]); }
    assert Redirs(c) == [r1, r2, r3] by { assert Redirs(c.cmd.cmd) == [r1]; }
    assert [r1, r2, r3][1..] == [r2, r3] && [r2, r3][1..] == [r3] && [r3][1..] == [];
    assert PrintRedirs([r3]) == PrintRedir(r3);
    assert PrintRedirs([r2, r3]) == PrintRedir(r2) + PrintRedirs([r3]);
  }

  // ----- parsing, then printing -----

  lemma {:induction false} RedirsAreWords(s: string, rs: seq<Redirection>)
    requires ParseRedirs(s, rs).Ok? && forall i :: 0 <= i < |rs| ==> IsWord(rs[i].file)
    ensures forall i :: 0 <= i < |ParseRedirs(s, rs).value| ==> IsWord(ParseRedirs(s, rs).value[i].file)
    decreases |s|
  {
    if Peek(s, {'<', '>'}) {
      var (tok, s1) := GetToken(s);
      var (file, s2) := GetToken(s1);
      RedirsAreWords(s2, rs + [Redirection(ModeOf(tok), file.w)]);
    }
  }

  lemma {:induction false} WrapPrintable(c: Cmd, rs: seq<Redirection>)
    requires Printable(c) && forall i :: 0 <= i < |rs| ==> IsWord(rs[i].file)
    ensures Printable(Wrap(c, rs))
    decreases |rs|
  {
    if rs != [] { WrapPrintable(c, rs[..|rs| - 1]); }
  }

  lemma {:induction false} ArgsArePrintable(s: string, args: seq<string>, rs: seq<Redirection>)
    requires ParseArgs(s, args, rs).Ok? && |args| < MAXARGS && forall i :: 0 <= i < |args| ==> IsWord(args[i])
    requires forall i :: 0 <= i < |rs| ==> IsWord(rs[i].file)
    ensures Printable(ParseArgs(s, args, rs).value)
    decreases |s|
  {
    hide ParseRedirs, GetToken, Skip, IsWord, Wrap;
    var (tok, s1) := GetToken(s);
    if Peek(s, {'|', ')', '&', ';'}) || tok == Eof {
      WrapPrintable(Exec(args), rs);
    } else {
      RedirsAreWords(s1, rs);
      var more := ParseRedirs(s1, rs);
      ArgsArePrintable(more.rest, args + [tok.w], more.value);
    }
  }

  lemma {:induction false} ExecIsPrintable(s: string)
    requires ParseExec(s).Ok?
    ensures Printable(ParseExec(s).value)
    decreases |s|, 1
  {
    hide ParseRedirs, ParseArgs, GetToken, Skip, IsWord, Wrap;
    if Peek(s, {'('}) {
      var inner := ParseLine(GetToken(s).1);
      LineIsPrintable(GetToken(s).1);
      RedirsAreWords(GetToken(inner.rest).1, []);
      WrapPrintable(inner.value, ParseRedirs(GetToken(inner.rest).1, []).value);
    } else {
      RedirsAreWords(s, []);
      ArgsArePrintable(ParseRedirs(s, []).rest, [], ParseRedirs(s, []).value);
    }
  }

  lemma {:induction false} PipeIsPrintable(s: string)
    requires ParsePipe(s).Ok?
    ensures Printable(ParsePipe(s).value)
    decreases |s|, 2
  {
    hide ParseExec, GetToken, Skip;
    ExecIsPrintable(s);
    var first := ParseExec(s);
    if Peek(first.rest, {'|'}) { PipeIsPrintable(GetToken(first.rest).1); }
  }

  lemma {:induction false} BacksArePrintable(c: Cmd, s: string)
    requires Printable(c)
    ensures Printable(ParseBacks(c, s).value)
    decreases |s|
  {
    if Peek(s, {'&'}) { BacksArePrintable(Back(c), GetToken(s).1); }
  }

  lemma {:induction false} LineIsPrintable(s: string)
    requires ParseLine(s).Ok?
    ensures Printable(ParseLine(s).value)
    decreases |s|, 3
  {
    hide ParsePipe, ParseBacks, GetToken, Skip;
    PipeIsPrintable(s);
    var piped := ParsePipe(s);
    BacksArePrintable(piped.value, piped.rest);
    var first := ParseBacks(piped.value, piped.rest);
    if Peek(first.rest, {';'}) { LineIsPrintable(GetToken(first.rest).1); }
  }

  /** The parser accepts some text for a command exactly when the command is printable, and then its own printing. */
  lemma ParsedExactly(c: Cmd)
    ensures Printable(c) <==> exists s :: ParseCmd(s) == Ok(c, "")
    ensures forall s :: ParseCmd(s) == Ok(c, "") ==> ParseCmd(Print(c, 0)) == Ok(c, "")
  {
    hide ParseLine, Print, Printable, Skip;
    if Printable(c) { RoundTrip(c); }
    forall s | ParseCmd(s) == Ok(c, "")
      ensures Printable(c) && ParseCmd(Print(c, 0)) == Ok(c, "")
    {
      LineIsPrintable(s);
      RoundTrip(c);
    }
  }

  // ----- the code: a cursor into the text -----

  /** A result of the code: the value and the cursor, or the panic. */
  datatype Parsed<T> = At(value: T, pos: nat) | Panicked(why: string)

  ghost predicate Agrees<T>(p: Parsed<T>, r: Result<T>, buf: string, from: nat) {
    match p
    case At(v, pos) => r.Ok? && v == r.value && from <= pos <= |buf| && buf[pos..] == r.rest
    case Panicked(why) => r == Panic(why)
  }

  method SkipBlanks(buf: string, pos: nat) returns (s: nat)
    requires pos <= |buf|
    ensures pos <= s <= |buf| && buf[s..] == Skip(buf[pos..])
  {
    s := pos;
    while s < |buf| && Blank(buf[s])
      invariant pos <= s <= |buf| && Skip(buf[s..]) == Skip(buf[pos..])
    {
      assert buf[s..][1..] == buf[s + 1..];
      s := s + 1;
    }
  }

  method WordEnd(buf: string, q: nat) returns (s: nat)
    requires q <= |buf|
    ensures q <= s <= |buf| && s - q == WordLen(buf[q..])
  {
    s := q;
    while s < |buf| && WordChar(buf[s])
      invariant q <= s <= |buf| && WordLen(buf[q..]) == s - q + WordLen(buf[s..])
    {
      assert buf[s..][1..] == buf[s + 1..];
      s := s + 1;
    }
  }

  method NextToken(buf: string, pos: nat) returns (tok: Token, next: nat)
    requires pos <= |buf|
    ensures pos <= next <= |buf| && GetToken(buf[pos..]) == (tok, buf[next..])
  {
    hide Skip, WordLen;
    var q := SkipBlanks(buf, pos);
    var s := q;
    ghost var t := buf[q..];
    if q == |buf| { return Eof, q; }
    if buf[q] == '>' && q + 1 < |buf| && buf[q + 1] == '>' {
      s := q + 2;
      tok := Appending;
    } else if Symbol(buf[q]) {
      s := q + 1;
      tok := Op(buf[q]);
    } else {
      s := WordEnd(buf, q);
      tok := Word(buf[q..s]);
      assert t[..s - q] == buf[q..s];
    }
    assert t[s - q..] == buf[s..];
    next := SkipBlanks(buf, s);
  }

  method Sees(buf: string, pos: nat, toks: set<char>) returns (yes: bool, next: nat)
    requires pos <= |buf|
    ensures pos <= next <= |buf| && buf[next..] == Skip(buf[pos..]) && yes == Peek(buf[pos..], toks)
  {
    next := SkipBlanks(buf, pos);
    yes := next < |buf| && buf[next] in toks;
  }

  lemma TokenSkip(s: string, toks: set<char>)
    ensures GetToken(Skip(s)) == GetToken(s) && Skip(Skip(s)) == Skip(s) && Peek(Skip(s), toks) == Peek(s, toks)
  {
  }

  method ReadRedirs(buf: string, pos: nat, given: seq<Redirection>) returns (r: Parsed<seq<Redirection>>)
    requires pos <= |buf|
    ensures Agrees(r, ParseRedirs(buf[pos..], given), buf, pos)
  {
    hide Skip, GetToken, Peek;
    var rs := given;
    var yes, p := Sees(buf, pos, {'<', '>'});
    TokenSkip(buf[pos..], {'<', '>'});
    while yes
      invariant pos <= p <= |buf| && Skip(buf[p..]) == buf[p..] && yes == Peek(buf[p..], {'<', '>'})
      invariant ParseRedirs(buf[p..], rs) == ParseRedirs(buf[pos..], given)
      decreases |buf| - p
    {
      var tok, s1 := NextToken(buf, p);
      var file, s2 := NextToken(buf, s1);
      RedirsStep(buf[p..], rs);
      if !file.Word? { return Panicked("missing file for redirection"); }
      rs := rs + [Redirection(ModeOf(tok), file.w)];
      TokenSkip(buf[s2..], {'<', '>'});
      yes, p := Sees(buf, s2, {'<', '>'});
    }
    return At(rs, p);
  }

  lemma SkippedFirst(s: string, rs: seq<Redirection>, args: seq<string>)
    ensures ParseRedirs(Skip(s), rs) == ParseRedirs(s, rs)
    ensures ParseArgs(Skip(s), args, rs) == ParseArgs(s, args, rs)
    ensures ParseBlock(Skip(s)) == ParseBlock(s)
  {
    TokenSkip(s, {'<', '>'});
    TokenSkip(s, {'|', ')', '&', ';'});
    TokenSkip(s, {'('});
    hide Skip, GetToken, Peek, Wrap, ParseLine;
  }

  /** parseexec's loop over the arguments. */
  method ReadArgs(buf: string, pos: nat, given: seq<Redirection>) returns (r: Parsed<Cmd>)
    requires pos <= |buf|
    ensures Agrees(r, ParseArgs(buf[pos..], [], given), buf, pos)
  {
    hide Skip, GetToken, Peek, ParseRedirs, Wrap;
    var args, rs: seq<Redirection> := [], given;
    var stop, p := Sees(buf, pos, {'|', ')', '&', ';'});
    SkippedFirst(buf[pos..], given, []);
    TokenSkip(buf[pos..], {'|', ')', '&', ';'});
    while !stop
      invariant pos <= p <= |buf| && Skip(buf[p..]) == buf[p..] && stop == Peek(buf[p..], {'|', ')', '&', ';'})
      invariant ParseArgs(buf[p..], args, rs) == ParseArgs(buf[pos..], [], given)
      decreases |buf| - p
    {
      var tok, s1 := NextToken(buf, p);
      if tok == Eof { break; }
      if !tok.Word? { return Panicked("syntax"); }
      if |args| + 1 >= MAXARGS { return Panicked("too many args"); }
      var more := ReadRedirs(buf, s1, rs);
      if more.Panicked? { return Panicked(more.why); }
      args, rs := args + [tok.w], more.value;
      SkippedFirst(buf[more.pos..], rs, args);
      TokenSkip(buf[more.pos..], {'|', ')', '&', ';'});
      stop, p := Sees(buf, more.pos, {'|', ')', '&', ';'});
    }
    return At(Wrap(Exec(args), rs), p);
  }

  method ReadExec(buf: string, pos: nat) returns (r: Parsed<Cmd>)
    requires pos <= |buf|
    ensures Agrees(r, ParseExec(buf[pos..]), buf, pos)
    decreases |buf| - pos, 1
  {
    hide Skip, GetToken, Peek, ParseRedirs, ParseBlock, ParseArgs, Wrap;
    var block, p := Sees(buf, pos, {'('});
    SkippedFirst(buf[pos..], [], []);
    if block {
      r := ReadBlock(buf, p);
      return;
    }
    var rs := ReadRedirs(buf, p, []);
    if rs.Panicked? { return Panicked(rs.why); }
    r := ReadArgs(buf, rs.pos, rs.value);
  }

  method ReadBlock(buf: string, pos: nat) returns (r: Parsed<Cmd>)
    requires pos <= |buf|
    ensures Agrees(r, ParseBlock(buf[pos..]), buf, pos)
    decreases |buf| - pos, 0
  {
    hide Skip, GetToken, Peek, ParseRedirs, ParseLine, Wrap;
    var open, p := Sees(buf, pos, {'('});
    TokenSkip(buf[pos..], {'('});
    if !open { return Panicked("parseblock"); }
    PeekToken(buf[p..], {'('});
    var tok, s := NextToken(buf, p);
    var inner := ReadLine(buf, s);
    if inner.Panicked? { return inner; }
    var close, q := Sees(buf, inner.pos, {')'});
    TokenSkip(buf[inner.pos..], {')'});
    if !close { return Panicked("syntax - missing )"); }
    tok, s := NextToken(buf, q);
    var rs := ReadRedirs(buf, s, []);
    if rs.Panicked? { return Panicked(rs.why); }
    return At(Wrap(inner.value, rs.value), rs.pos);
  }

  lemma PeekToken(s: string, toks: set<char>)
    requires Peek(s, toks)
    ensures |GetToken(s).1| < |s|
  {
  }

  method ReadPipe(buf: string, pos: nat) returns (r: Parsed<Cmd>)
    requires pos <= |buf|
    ensures Agrees(r, ParsePipe(buf[pos..]), buf, pos)
    decreases |buf| - pos, 2
  {
    hide Skip, GetToken, Peek, ParseExec;
    var first := ReadExec(buf, pos);
    if first.Panicked? { return first; }
    var yes, p := Sees(buf, first.pos, {'|'});
    TokenSkip(buf[first.pos..], {'|'});
    if !yes { return At(first.value, p); }
    PeekToken(buf[p..], {'|'});
    var tok, s := NextToken(buf, p);
    var others := ReadPipe(buf, s);
    if others.Panicked? { return others; }
    return At(Pipe(first.value, others.value), others.pos);
  }

  method ReadLine(buf: string, pos: nat) returns (r: Parsed<Cmd>)
    requires pos <= |buf|
    ensures Agrees(r, ParseLine(buf[pos..]), buf, pos)
    decreases |buf| - pos, 3
  {
    hide Skip, GetToken, Peek, ParsePipe, ParseBacks;
    r := ReadPipe(buf, pos);
    if r.Panicked? { return; }
    var cmd, p := ReadBacks(buf, r.pos, r.value);
    var yes, q := Sees(buf, p, {';'});
    TokenSkip(buf[p..], {';'});
    if !yes { return At(cmd, q); }
    PeekToken(buf[q..], {';'});
    var tok, s := NextToken(buf, q);
    var others := ReadLine(buf, s);
    if others.Panicked? { return others; }
    return At(List(cmd, others.value), others.pos);
  }

  /** parseline's loop over `&`. */
  method ReadBacks(buf: string, pos: nat, c: Cmd) returns (cmd: Cmd, p: nat)
    requires pos <= |buf|
    ensures pos <= p <= |buf| && Skip(buf[p..]) == buf[p..] && ParseBacks(c, buf[pos..]) == Ok(cmd, buf[p..])
  {
    hide Skip, GetToken, Peek;
    var yes;
    cmd := c;
    yes, p := Sees(buf, pos, {'&'});
    TokenSkip(buf[pos..], {'&'});
    while yes
      invariant pos <= p <= |buf| && Skip(buf[p..]) == buf[p..] && yes == Peek(buf[p..], {'&'})
      invariant ParseBacks(cmd, buf[p..]) == ParseBacks(c, buf[pos..])
      decreases |buf| - p
    {
      PeekToken(buf[p..], {'&'});
      var tok, s := NextToken(buf, p);
      cmd := Back(cmd);
      TokenSkip(buf[s..], {'&'});
      yes, p := Sees(buf, s, {'&'});
    }
  }

  /** parsecmd. */
  method ReadCmd(buf: string) returns (r: Parsed<Cmd>)
    ensures Agrees(r, ParseCmd(buf), buf, 0)
  {
    hide Skip, ParseLine;
    assert buf[0..] == buf;
    r := ReadLine(buf, 0);
    if r.Panicked? { return; }
    var _, p := Sees(buf, r.pos, {});
    if p != |buf| { return Panicked("syntax"); }
    r := At(r.value, p);
  }
}
