/** The shell's grammar (sh.c) as functions over the text of a line, a printer that parenthesises every
    subcommand, and the round trip between the two. A line ends with its NUL. */
module ShellGrammar {
  const NUL: char := '\0'
  const MAXARGS := 10
  const O_RDONLY := 0
  const O_WRONLY := 1
  const O_CREATE := 0x200

  /** Where a word lies: from q up to eq. */
  datatype Span = Span(q: nat, eq: nat)

  /** A command tree whose words are strings, or spans of the line. */
  datatype Cmd<W> =
    | Exec(argv: seq<W>)
    | Redir(cmd: Cmd<W>, file: W, mode: nat, fd: nat)
    | Pipe(left: Cmd<W>, right: Cmd<W>)
    | List(left: Cmd<W>, right: Cmd<W>)
    | Back(cmd: Cmd<W>)

  datatype Redirection = Redirection(file: Span, mode: nat, fd: nat)

  datatype Parsed<T> = Ok(value: T, next: nat) | Panic(why: string)

  // ----- characters and tokens -----

  predicate Blank(c: char) { c == ' ' || c == '\t' || c == '\r' || c == '\n' || c == '\U{0B}' }

  predicate Symbol(c: char) { c == '<' || c == '|' || c == '>' || c == '&' || c == ';' || c == '(' || c == ')' }

  /** The shell's whitespace and symbols, and no others. */
  lemma Characters(c: char)
    ensures Blank(c) <==> c in " \t\r\n\U{0B}"
    ensures Symbol(c) <==> c in "<|>&;()"
  {
  }

  /** Nothing else is skipped. */
  lemma {:induction false} SkipsBlanks(b: string, i: nat)
    requires i < |b|
    ensures forall k | i <= k < SkipBlank(b, i) :: b[k] in " \t\r\n\U{0B}"
    decreases |b| - i
  {
    if i < |b| - 1 && Blank(b[i]) { SkipsBlanks(b, i + 1); }
  }

  predicate WordChar(c: char) { c != NUL && !Blank(c) && !Symbol(c) }

  predicate Line(b: string) {
    b != "" && b[|b| - 1] == NUL && forall k | 0 <= k < |b| - 1 :: b[k] != NUL
  }

  function SkipBlank(b: string, i: nat): (j: nat)
    requires i < |b|
    ensures i <= j < |b| && (j < |b| - 1 ==> !Blank(b[j]))
    decreases |b| - i
  {
    if i < |b| - 1 && Blank(b[i]) then SkipBlank(b, i + 1) else i
  }

  function WordEnd(b: string, i: nat): (j: nat)
    requires i < |b|
    ensures i <= j < |b| && (j < |b| - 1 ==> Blank(b[j]) || Symbol(b[j]))
    ensures forall k | i <= k < j :: !Blank(b[k]) && !Symbol(b[k])
    decreases |b| - i
  {
    if i < |b| - 1 && !Blank(b[i]) && !Symbol(b[i]) then WordEnd(b, i + 1) else i
  }

  /** The kind is the character itself, '+' for ">>" and 'a' for a word. */
  datatype Token = Token(kind: char, q: nat, eq: nat, next: nat)

  function Lex(b: string, i: nat): (t: Token)
    requires Line(b) && i < |b|
    ensures i <= t.q <= t.eq <= t.next < |b|
    ensures t.kind != NUL ==> t.q < t.next
  {
    var q := SkipBlank(b, i);
    if b[q] == NUL then Token(NUL, q, q, SkipBlank(b, q))
    else if b[q] == '>' then
      if b[q + 1] == '>' then Token('+', q, q + 2, SkipBlank(b, q + 2)) else Token('>', q, q + 1, SkipBlank(b, q + 1))
    else if Symbol(b[q]) then Token(b[q], q, q + 1, SkipBlank(b, q + 1))
    else Token('a', q, WordEnd(b, q), SkipBlank(b, WordEnd(b, q)))
  }

  // ----- the grammar -----

  function Wrap(cmd: Cmd<Span>, rs: seq<Redirection>): Cmd<Span> {
    if rs == [] then cmd
    else
      var r := rs[|rs| - 1];
      Redir(Wrap(cmd, rs[..|rs| - 1]), r.file, r.mode, r.fd)
  }

  function Redirected(kind: char, file: Span): Redirection {
    if kind == '<' then Redirection(file, O_RDONLY, 0) else Redirection(file, O_WRONLY + O_CREATE, 1)
  }

  /** More redirections behind those in rs. */
  function Redirs(b: string, i: nat, rs: seq<Redirection>): (r: Parsed<seq<Redirection>>)
    requires Line(b) && i < |b|
    ensures r.Ok? ==> i <= r.next < |b|
    decreases |b| - i
  {
    var j := SkipBlank(b, i);
    if b[j] == '<' || b[j] == '>' then
      var tok := Lex(b, j);
      var file := Lex(b, tok.next);
      if file.kind != 'a' then Panic("missing file for redirection")
      else Redirs(b, file.next, rs + [Redirected(tok.kind, Span(file.q, file.eq))])
    else Ok(rs, j)
  }

  function ParseLine(b: string, i: nat): (r: Parsed<Cmd<Span>>)
    requires Line(b) && i < |b|
    ensures r.Ok? ==> i <= r.next < |b|
    decreases |b| - i, 4
  {
    var p := ParsePipe(b, i);
    if p.Panic? then p else ParseTail(b, p.next, p.value)
  }

  /** Any number of '&', then perhaps ';' and the rest of the line. */
  function ParseTail(b: string, i: nat, cmd: Cmd<Span>): (r: Parsed<Cmd<Span>>)
    requires Line(b) && i < |b|
    ensures r.Ok? ==> i <= r.next < |b|
    decreases |b| - i, 0
  {
    var j := SkipBlank(b, i);
    if b[j] == '&' then ParseTail(b, Lex(b, j).next, Back(cmd))
    else if b[j] == ';' then
      var rest := ParseLine(b, Lex(b, j).next);
      if rest.Panic? then rest else Ok(List(cmd, rest.value), rest.next)
    else Ok(cmd, j)
  }

  function ParsePipe(b: string, i: nat): (r: Parsed<Cmd<Span>>)
    requires Line(b) && i < |b|
    ensures r.Ok? ==> i <= r.next < |b|
    decreases |b| - i, 3
  {
    var p := ParseExec(b, i);
    if p.Panic? then p
    else
      var j := SkipBlank(b, p.next);
      if b[j] == '|' then
        var rest := ParsePipe(b, Lex(b, j).next);
        if rest.Panic? then rest else Ok(Pipe(p.value, rest.value), rest.next)
      else Ok(p.value, j)
  }

  function ParseExec(b: string, i: nat): (r: Parsed<Cmd<Span>>)
    requires Line(b) && i < |b|
    ensures r.Ok? ==> i <= r.next < |b|
    decreases |b| - i, 2
  {
    var j := SkipBlank(b, i);
    if b[j] == '(' then ParseBlock(b, j)
    else
      var r := Redirs(b, j, []);
      if r.Panic? then Panic(r.why) else ParseArgs(b, r.next, [], r.value)
  }

  /** What the argument loop meets: no further argument, something that is not a word, or a word. */
  datatype Arg = NoArg(at: nat) | NotWord | Arg(word: Span, next: nat)

  function NextArg(b: string, i: nat): (a: Arg)
    requires Line(b) && i < |b|
    ensures a.NoArg? ==> i <= a.at < |b|
    ensures a.Arg? ==> i < a.next < |b|
  {
    var j := SkipBlank(b, i);
    if b[j] == '|' || b[j] == ')' || b[j] == '&' || b[j] == ';' then NoArg(j)
    else
      var t := Lex(b, j);
      if t.kind == NUL then NoArg(t.next)
      else if t.kind != 'a' then NotWord
      else Arg(Span(t.q, t.eq), t.next)
  }

  function ParseArgs(b: string, i: nat, argv: seq<Span>, rs: seq<Redirection>): (r: Parsed<Cmd<Span>>)
    requires Line(b) && i < |b|
    ensures r.Ok? ==> i <= r.next < |b|
    decreases |b| - i, 0
  {
    match NextArg(b, i)
    case NoArg(at) => Ok(Wrap(Exec(argv), rs), at)
    case NotWord => Panic("syntax")
    case Arg(word, next) =>
      if |argv| + 1 >= MAXARGS then Panic("too many args")
      else
        var r := Redirs(b, next, rs);
        if r.Panic? then Panic(r.why) else ParseArgs(b, r.next, argv + [word], r.value)
  }

  function ParseBlock(b: string, i: nat): (r: Parsed<Cmd<Span>>)
    requires Line(b) && i < |b|
    ensures r.Ok? ==> i <= r.next < |b|
    decreases |b| - i, 1
  {
    var j := SkipBlank(b, i);
    if b[j] != '(' then Panic("parseblock")
    else
      var body := ParseLine(b, Lex(b, j).next);
      if body.Panic? then body else BlockTail(b, body.next, body.value)
  }

  /** The ')' and the redirections behind it. */
  function BlockTail(b: string, i: nat, cmd: Cmd<Span>): (r: Parsed<Cmd<Span>>)
    requires Line(b) && i < |b|
    ensures r.Ok? ==> i <= r.next < |b|
  {
    var j := SkipBlank(b, i);
    if b[j] != ')' then Panic("syntax - missing )")
    else
      var r := Redirs(b, Lex(b, j).next, []);
      if r.Panic? then Panic(r.why) else Ok(Wrap(cmd, r.value), r.next)
  }

  function ParseCmd(b: string): (r: Parsed<Cmd<Span>>)
    requires Line(b)
    ensures r.Ok? ==> r.next == |b| - 1
  {
    var p := ParseLine(b, 0);
    if p.Panic? then p
    else
      var j := SkipBlank(b, p.next);
      if j != |b| - 1 then Panic("syntax") else Ok(p.value, j)
  }

  // ----- what a tree says -----

  function Word(b: string, w: Span): string {
    if w.q <= w.eq <= |b| then b[w.q..w.eq] else ""
  }

  function Words(b: string, ws: seq<Span>): (r: seq<string>)
    ensures |r| == |ws| && forall k | 0 <= k < |ws| :: r[k] == Word(b, ws[k])
  {
    seq(|ws|, k requires 0 <= k < |ws| => Word(b, ws[k]))
  }

  /** The tree with its words read off the line. */
  function Text(b: string, c: Cmd<Span>): Cmd<string> {
    match c
    case Exec(argv) => Exec(Words(b, argv))
    case Redir(cmd, file, mode, fd) => Redir(Text(b, cmd), Word(b, file), mode, fd)
    case Pipe(left, right) => Pipe(Text(b, left), Text(b, right))
    case List(left, right) => List(Text(b, left), Text(b, right))
    case Back(cmd) => Back(Text(b, cmd))
  }

  predicate CleanWord(w: string) {
    w != "" && forall k | 0 <= k < |w| :: WordChar(w[k])
  }

  /** The trees the shell can express. */
  predicate Clean(c: Cmd<string>) {
    match c
    case Exec(argv) => |argv| < MAXARGS && forall k | 0 <= k < |argv| :: CleanWord(argv[k])
    case Redir(cmd, file, mode, fd) =>
      Clean(cmd) && CleanWord(file) && ((mode == O_RDONLY && fd == 0) || (mode == O_WRONLY + O_CREATE && fd == 1))
    case Pipe(left, right) => Clean(left) && Clean(right)
    case List(left, right) => Clean(left) && Clean(right)
    case Back(cmd) => Clean(cmd)
  }

  // ----- the printer -----

  function PrintWords(ws: seq<string>): string {
    if ws == [] then "" else ws[0] + " " + PrintWords(ws[1..])
  }

  /** Where a tree may choose to put parentheses that it does not need. */
  type Style = Cmd<string> -> bool

  /** How tightly a tree binds: commands and redirections first, then '|', '&', ';'. */
  function Level(c: Cmd<string>): nat {
    match c
    case Exec(_) => 0
    case Redir(_, _, _, _) => 0
    case Pipe(_, _) => 1
    case Back(_) => 2
    case List(_, _) => 3
  }

  /** Printed without parentheses where only trees up to level n may stand. */
  predicate Bare(c: Cmd<string>, n: nat, s: Style) {
    Level(c) <= n && !s(c)
  }

  function Print(c: Cmd<string>, s: Style): string
    decreases c, 0
  {
    match c
    case Exec(argv) => PrintWords(argv)
    case Redir(cmd, file, _, fd) => Operand(cmd, 0, s) + (if fd == 0 then "<" else ">") + file + " "
    case Pipe(left, right) => Operand(left, 0, s) + "|" + Operand(right, 1, s)
    case List(left, right) => Operand(left, 2, s) + ";" + Operand(right, 3, s)
    case Back(cmd) => Operand(cmd, 2, s) + "&"
  }

  function Operand(c: Cmd<string>, n: nat, s: Style): string
    decreases c, 2
  {
    if Bare(c, n, s) then Print(c, s) else Group(c, s)
  }

  function Group(c: Cmd<string>, s: Style): string
    decreases c, 1
  {
    "(" + Print(c, s) + ")"
  }

  function LineOf(c: Cmd<string>, s: Style): string {
    Print(c, s) + [NUL]
  }

  // ----- a command and the redirections behind it -----

  /** What is printed in front of the redirections of a command, and whether it stands in parentheses. */
  function Head(c: Cmd<string>, s: Style): (h: (Cmd<string>, bool))
    ensures if h.1 then Size(h.0) < Size(c) else Level(c) == 0 ==> h.0.Exec?
    ensures Clean(c) ==> Clean(h.0)
    decreases c
  {
    match c
    case Redir(cmd, _, _, _) => if Bare(cmd, 0, s) then Head(cmd, s) else (cmd, true)
    case _ => (c, false)
  }

  /** The redirections behind it. */
  function Chain(c: Cmd<string>, s: Style): (ch: seq<(char, string)>)
    ensures forall k | 0 <= k < |ch| :: (ch[k].0 == '<' || ch[k].0 == '>') && (Clean(c) ==> CleanWord(ch[k].1))
    decreases c
  {
    match c
    case Redir(cmd, file, _, fd) =>
      (if Bare(cmd, 0, s) then Chain(cmd, s) else []) + [(if fd == 0 then '<' else '>', file)]
    case _ => []
  }

  function PrintRedirs(ch: seq<(char, string)>): string {
    if ch == [] then "" else [ch[0].0] + (ch[0].1 + " " + PrintRedirs(ch[1..]))
  }

  function Size(c: Cmd<string>): (n: nat)
    ensures n > 0
  {
    match c
    case Exec(_) => 1
    case Redir(cmd, _, _, _) => 1 + Size(cmd)
    case Pipe(left, right) => 1 + Size(left) + Size(right)
    case List(left, right) => 1 + Size(left) + Size(right)
    case Back(cmd) => 1 + Size(cmd)
  }

  function PrintHead(c: Cmd<string>, s: Style): string {
    var (h, grouped) := Head(c, s);
    if grouped then Group(h, s) else Print(h, s)
  }

  lemma {:induction false} RedirsSnoc(ch: seq<(char, string)>, kind: char, file: string)
    ensures PrintRedirs(ch + [(kind, file)]) == PrintRedirs(ch) + ([kind] + (file + " "))
  {
    if ch == [] {
      assert ch + [(kind, file)] == [(kind, file)];
    } else {
      var more := ch + [(kind, file)];
      assert more[1..] == ch[1..] + [(kind, file)] && more[0] == ch[0];
      RedirsSnoc(ch[1..], kind, file);
      var last, w := [kind] + (file + " "), ch[0].1 + " ";
      assert [ch[0].0] + (w + (PrintRedirs(ch[1..]) + last)) == [ch[0].0] + (w + PrintRedirs(ch[1..])) + last;
    }
  }

  lemma {:induction false} ChainPrints(c: Cmd<string>, s: Style)
    ensures Print(c, s) == PrintHead(c, s) + PrintRedirs(Chain(c, s))
    decreases c
  {
    hide Group, PrintWords, PrintRedirs, Bare;
    HeadCases(c, s);
    NoRedirsPrinted();
    if c.Redir? {
      var cmd, file := c.cmd, c.file;
      var kind := if c.fd == 0 then '<' else '>';
      var before := if Bare(cmd, 0, s) then Chain(cmd, s) else [];
      if Bare(cmd, 0, s) { ChainPrints(cmd, s); }
      RedirsSnoc(before, kind, file);
      assert Operand(cmd, 0, s) == PrintHead(c, s) + PrintRedirs(before);
      assert Print(c, s) == Operand(cmd, 0, s) + ([kind] + (file + " "));
    }
  }

  lemma NoRedirsPrinted()
    ensures PrintRedirs([]) == ""
  {
  }

  lemma HeadCases(c: Cmd<string>, s: Style)
    ensures !c.Redir? ==> PrintHead(c, s) == Print(c, s) && Chain(c, s) == []
    ensures c.Redir? ==> PrintHead(c, s) == if Bare(c.cmd, 0, s) then PrintHead(c.cmd, s) else Group(c.cmd, s)
    ensures c.Redir? ==>
              Chain(c, s) == (if Bare(c.cmd, 0, s) then Chain(c.cmd, s) else [])
                + [(if c.fd == 0 then '<' else '>', c.file)]
    ensures c.Redir? ==> Print(c, s) == Operand(c.cmd, 0, s) + (if c.fd == 0 then "<" else ">") + c.file + " "
  {
  }

  /** The redirections read are those of the chain. */
  predicate Reads(b: string, rs: seq<Redirection>, ch: seq<(char, string)>) {
    |rs| == |ch| && forall k | 0 <= k < |rs| ::
      rs[k] == Redirected(ch[k].0, rs[k].file) && Word(b, rs[k].file) == ch[k].1
  }

  lemma {:induction false} ChainText(b: string, c: Cmd<string>, s: Style, t: Cmd<Span>, rs: seq<Redirection>)
    requires Clean(c) && Text(b, t) == Head(c, s).0 && Reads(b, rs, Chain(c, s))
    ensures Text(b, Wrap(t, rs)) == c
    decreases c
  {
    match c
    case Redir(cmd, file, mode, fd) =>
      var last := |rs| - 1;
      var before := if Bare(cmd, 0, s) then Chain(cmd, s) else [];
      assert Chain(c, s) == before + [(if fd == 0 then '<' else '>', file)];
      assert Reads(b, rs[..last], before);
      if Bare(cmd, 0, s) { ChainText(b, cmd, s, t, rs[..last]); }
      assert rs[last] == Redirection(rs[last].file, mode, fd);
    case _ =>
  }

  // ----- reading the printer's output -----

  /** What is left of the line from i on. */
  predicate Rest(b: string, i: nat, x: string) {
    i <= |b| && b[i..] == x
  }

  lemma RestStep(b: string, i: nat, c: char, x: string)
    requires Rest(b, i, [c] + x)
    ensures i < |b| && b[i] == c && Rest(b, i + 1, x)
  {
    assert b[i..][0] == c;
    assert b[i + 1..] == b[i..][1..];
  }

  lemma RestSkip(b: string, i: nat, w: string, x: string)
    requires Rest(b, i, w + x)
    ensures i + |w| <= |b| && b[i..i + |w|] == w && Rest(b, i + |w|, x)
  {
    assert |b[i..]| == |w| + |x|;
    assert b[i + |w|..] == b[i..][|w|..];
    assert b[i..i + |w|] == b[i..][..|w|];
  }

  /** A nonempty text that does not start with a blank. */
  predicate Solid(x: string) {
    x != "" && !Blank(x[0])
  }

  lemma SolidRest(b: string, i: nat, x: string)
    requires Rest(b, i, x) && Solid(x)
    ensures i < |b| && b[i] == x[0] && SkipBlank(b, i) == i
  {
    assert b[i..][0] == b[i];
  }

  lemma SymbolToken(b: string, i: nat, c: char, x: string)
    requires Line(b) && Rest(b, i, [c] + x) && Solid(x)
    requires Symbol(c) && (c == '>' ==> x[0] != '>')
    ensures i < |b| && b[i] == c && Lex(b, i) == Token(c, i, i + 1, i + 1) && Rest(b, i + 1, x) && SkipBlank(b, i) == i
  {
    RestStep(b, i, c, x);
    SolidRest(b, i, [c] + x);
    SolidRest(b, i + 1, x);
  }

  lemma {:induction false} WordEndAt(b: string, i: nat, e: nat)
    requires i <= e < |b| && (forall k | i <= k < e :: WordChar(b[k])) && !WordChar(b[e]) && Line(b)
    ensures WordEnd(b, i) == e
    decreases e - i
  {
    if i < e { WordEndAt(b, i + 1, e); }
  }

  lemma LexWord(b: string, i: nat)
    requires Line(b) && i < |b| && WordChar(b[i])
    ensures SkipBlank(b, i) == i && Lex(b, i) == Token('a', i, WordEnd(b, i), SkipBlank(b, WordEnd(b, i)))
  {
  }

  lemma BlankSkipped(b: string, i: nat)
    requires i + 1 < |b| && b[i] == ' '
    ensures SkipBlank(b, i) == SkipBlank(b, i + 1) && !WordChar(b[i])
  {
  }

  lemma CleanSlice(b: string, i: nat, e: nat)
    requires i <= e <= |b| && CleanWord(b[i..e])
    ensures i < e && b[i] == b[i..e][0] && forall k | i <= k < e :: WordChar(b[k])
  {
    assert forall k | i <= k < e :: b[k] == b[i..e][k - i];
  }

  lemma WordToken(b: string, i: nat, w: string, x: string)
    requires Line(b) && CleanWord(w) && Rest(b, i, w + " " + x) && Solid(x)
    ensures i < |b| && b[i] == w[0] && SkipBlank(b, i) == i
    ensures Lex(b, i) == Token('a', i, i + |w|, i + |w| + 1) && Word(b, Span(i, i + |w|)) == w
              && Rest(b, i + |w| + 1, x)
  {
    hide Blank, Symbol, WordChar, Lex, SkipBlank, WordEnd, Line, CleanWord, Rest;
    assert w + " " + x == w + ([' '] + x);
    RestSkip(b, i, w, [' '] + x);
    var e := i + |w|;
    RestStep(b, e, ' ', x);
    SolidRest(b, e + 1, x);
    BlankSkipped(b, e);
    CleanSlice(b, i, e);
    WordEndAt(b, i, e);
    LexWord(b, i);
  }

  // ----- the round trip -----

  /** What may follow a whole line: its end, or the ')' of the group around it. */
  predicate Ends(x: string) {
    x != "" && (x[0] == NUL || x[0] == ')')
  }

  /** What may follow a command: the end of a line, or an operator. */
  predicate Stops(x: string) {
    x != "" && (x[0] == NUL || x[0] == ')' || x[0] == '|' || x[0] == '&' || x[0] == ';')
  }

  lemma StopsFacts(x: string)
    ensures Ends(x) ==> Stops(x) && x[0] != '|' && x[0] != '&' && x[0] != ';'
    ensures Stops(x) ==> Solid(x) && x[0] != '<' && x[0] != '>' && x[0] != '('
    ensures forall c: char, y: string | c == '|' || c == '&' || c == ';' ::
              Stops([c] + y) && ([c] + y)[0] == c && Symbol(c)
  {
  }

  lemma NoRedirs(b: string, i: nat, x: string, rs: seq<Redirection>)
    requires Line(b) && Rest(b, i, x) && Solid(x) && x[0] != '<' && x[0] != '>'
    ensures i < |b| && Redirs(b, i, rs) == Ok(rs, i)
  {
    SolidRest(b, i, x);
  }

  lemma ReadsFile(file: string)
    requires CleanWord(file)
    ensures file != "" && !Blank(file[0]) && !Symbol(file[0])
    ensures file[0] != '<' && file[0] != '>' && file[0] != '('
  {
    hide Blank;
    assert WordChar(file[0]);
  }

  lemma RedirsSolid(ch: seq<(char, string)>, x: string)
    requires Stops(x) && forall k | 0 <= k < |ch| :: ch[k].0 == '<' || ch[k].0 == '>'
    ensures Solid(PrintRedirs(ch) + x) && (PrintRedirs(ch) + x)[0] != '('
  {
    hide PrintRedirs;
    RedirsCons(ch);
    var y := PrintRedirs(ch) + x;
    if ch == [] {
      assert y == x;
    } else {
      assert y[0] == ch[0].0;
    }
  }

  lemma RedirsCons(ch: seq<(char, string)>)
    ensures PrintRedirs(ch) == if ch == [] then "" else [ch[0].0] + (ch[0].1 + " " + PrintRedirs(ch[1..]))
  {
  }

  /** The redirections printed are read, one after the other. */
  lemma {:induction false} RedirsRead(b: string, i: nat, rs0: seq<Redirection>, ch: seq<(char, string)>, x: string)
      returns (rs: seq<Redirection>, j: nat)
    requires Line(b) && Rest(b, i, PrintRedirs(ch) + x) && Stops(x)
    requires forall k | 0 <= k < |ch| :: (ch[k].0 == '<' || ch[k].0 == '>') && CleanWord(ch[k].1)
    ensures i < |b| && Redirs(b, i, rs0) == Ok(rs0 + rs, j) && Rest(b, j, x) && Reads(b, rs, ch)
    decreases |ch|
  {
    hide Rest, CleanWord, Lex, SkipBlank, Line, Redirs, Redirected, Blank, Symbol, Word;
    StopsFacts(x);
    if ch == [] {
      assert PrintRedirs(ch) + x == x && rs0 + [] == rs0;
      NoRedirs(b, i, x, rs0);
      rs, j := [], i;
    } else {
      var kind, file := ch[0].0, ch[0].1;
      var z := PrintRedirs(ch[1..]) + x;
      assert PrintRedirs(ch) + x == [kind] + (file + " " + z);
      RedirsSolid(ch[1..], x);
      var r := OneRedir(b, i, rs0, kind, file, z);
      var more;
      more, j := RedirsRead(b, i + 1 + |file| + 1, rs0 + [r], ch[1..], x);
      rs := [r] + more;
      assert rs0 + [r] + more == rs0 + rs;
      assert forall k | 0 < k < |rs| :: rs[k] == more[k - 1] && ch[k] == ch[1..][k - 1];
    }
  }

  lemma OneRedir(b: string, i: nat, rs: seq<Redirection>, kind: char, file: string, z: string) returns (r: Redirection)
    requires Line(b) && (kind == '<' || kind == '>') && CleanWord(file) && Solid(z)
    requires Rest(b, i, [kind] + (file + " " + z))
    ensures i + 1 + |file| + 1 < |b| && Rest(b, i + 1 + |file| + 1, z)
    ensures Redirs(b, i, rs) == Redirs(b, i + 1 + |file| + 1, rs + [r])
    ensures Word(b, r.file) == file && r == Redirected(kind, r.file)
  {
    hide Blank, WordChar, Lex, SkipBlank, Line, Redirected, Word, Rest;
    ReadsFile(file);
    var y := file + " " + z;
    assert y[0] == file[0];
    SymbolToken(b, i, kind, y);
    WordToken(b, i + 1, file, z);
    SolidRest(b, i + 1 + |file| + 1, z);
    r := Redirected(kind, Span(i + 1, i + 1 + |file|));
    ShortRedirection(kind, Span(i + 1, i + 1 + |file|));
  }

  lemma ShortRedirection(kind: char, file: Span)
    ensures Redirected(kind, file).file == file
  {
  }

  lemma PrintWordsCons(ws: seq<string>, x: string)
    ensures ws == [] ==> PrintWords(ws) + x == x
    ensures ws != [] ==> PrintWords(ws) + x == ws[0] + " " + (PrintWords(ws[1..]) + x)
  {
  }

  lemma WordsCons(b: string, w: Span, ws: seq<Span>)
    ensures Words(b, [w] + ws) == [Word(b, w)] + Words(b, ws) && Words(b, []) == []
  {
  }

  lemma WordsSolid(ws: seq<string>, y: string)
    requires Solid(y) && y[0] != '(' && forall k | 0 <= k < |ws| :: CleanWord(ws[k])
    ensures Solid(PrintWords(ws) + y) && (PrintWords(ws) + y)[0] != '('
    ensures ws != [] ==> (PrintWords(ws) + y)[0] != '<' && (PrintWords(ws) + y)[0] != '>'
  {
    hide PrintWords, CleanWord, Blank, Symbol;
    PrintWordsCons(ws, y);
    if ws != [] {
      ReadsFile(ws[0]);
      assert (ws[0] + " " + (PrintWords(ws[1..]) + y))[0] == ws[0][0];
    }
  }

  lemma ArgsEnd(b: string, i: nat, argv: seq<Span>, rs: seq<Redirection>, x: string)
    requires Line(b) && Rest(b, i, x) && Stops(x)
    ensures i < |b| && ParseArgs(b, i, argv, rs) == Ok(Wrap(Exec(argv), rs), i)
  {
    SolidRest(b, i, x);
  }

  lemma ArgsStep(b: string, i: nat, argv: seq<Span>, w: Span, e: nat, rs: seq<Redirection>, j: nat)
    requires Line(b) && i < e < |b| && NextArg(b, i) == Arg(w, e) && Redirs(b, e, []) == Ok(rs, j) && j < |b|
    requires |argv| + 1 < MAXARGS
    ensures e <= j && ParseArgs(b, i, argv, []) == ParseArgs(b, j, argv + [w], rs)
  {
    hide NextArg, Line, Wrap;
  }

  lemma OneArg(b: string, i: nat, w: string, z: string) returns (here: Span)
    requires Line(b) && Rest(b, i, w + " " + z) && CleanWord(w) && Solid(z)
    ensures i < i + |w| + 1 < |b| && Word(b, here) == w && Rest(b, i + |w| + 1, z)
              && NextArg(b, i) == Arg(here, i + |w| + 1)
  {
    hide Rest, CleanWord, Lex, SkipBlank, Line, Blank;
    WordToken(b, i, w, z);
    ReadsFile(w);
    here := Span(i, i + |w|);
    SolidRest(b, i + |w| + 1, z);
  }

  /** At least one word, and the redirections behind the last. */
  lemma {:induction false} ArgsParse(b: string, i: nat, argv: seq<Span>, ws: seq<string>, ch: seq<(char, string)>,
                                     x: string)
      returns (args: seq<Span>, rs: seq<Redirection>, j: nat)
    requires Line(b) && Rest(b, i, PrintWords(ws) + (PrintRedirs(ch) + x)) && Stops(x) && ws != []
    requires |argv| + |ws| < MAXARGS && forall k | 0 <= k < |ws| :: CleanWord(ws[k])
    requires forall k | 0 <= k < |ch| :: (ch[k].0 == '<' || ch[k].0 == '>') && CleanWord(ch[k].1)
    ensures i < |b| && ParseArgs(b, i, argv, []) == Ok(Wrap(Exec(argv + args), rs), j) && Rest(b, j, x)
    ensures Words(b, args) == ws && Reads(b, rs, ch)
    decreases |ws|
  {
    hide Rest, CleanWord, Lex, SkipBlank, Line, Redirs, ParseArgs, PrintWords, Words, Stops, Reads, NextArg, Wrap;
    var y := PrintRedirs(ch) + x;
    PrintWordsCons(ws, y);
    RedirsSolid(ch, x);
    WordsSolid(ws[1..], y);
    var w, z := ws[0], PrintWords(ws[1..]) + y;
    var here := OneArg(b, i, w, z);
    var e := i + |w| + 1;
    if |ws| == 1 {
      PrintWordsCons(ws[1..], y);
      rs, j := RedirsRead(b, e, [], ch, x);
      assert [] + rs == rs;
      ArgsEnd(b, j, argv + [here], rs, x);
      ArgsStep(b, i, argv, here, e, rs, j);
      args := [here];
      WordsCons(b, here, []);
      assert [here] + [] == args && ws == [w];
    } else {
      NoRedirs(b, e, z, []);
      ArgsStep(b, i, argv, here, e, [], e);
      var rest;
      rest, rs, j := ArgsParse(b, e, argv + [here], ws[1..], ch, x);
      args := [here] + rest;
      assert argv + [here] + rest == argv + args;
      WordsCons(b, here, rest);
      assert ws == [w] + ws[1..];
    }
  }

  /** A simple command with its redirections. */
  lemma WordsParse(argv: seq<string>, ch: seq<(char, string)>, b: string, i: nat, x: string)
      returns (t: Cmd<Span>, rs: seq<Redirection>, j: nat)
    requires Line(b) && Clean(Exec(argv)) && Rest(b, i, PrintWords(argv) + (PrintRedirs(ch) + x)) && Stops(x)
    requires forall k | 0 <= k < |ch| :: (ch[k].0 == '<' || ch[k].0 == '>') && CleanWord(ch[k].1)
    ensures i < |b| && ParseExec(b, i) == Ok(Wrap(t, rs), j) && Rest(b, j, x)
    ensures Text(b, t) == Exec(argv) && Reads(b, rs, ch)
  {
    hide Rest, CleanWord, Lex, SkipBlank, Line, Redirs, ParseArgs, PrintWords, Words, Stops, Reads, Wrap, Blank,
      WordChar;
    var y := PrintRedirs(ch) + x;
    RedirsSolid(ch, x);
    WordsSolid(argv, y);
    SolidRest(b, i, PrintWords(argv) + y);
    if argv == [] {
      PrintWordsCons(argv, y);
      rs, j := RedirsRead(b, i, [], ch, x);
      assert [] + rs == rs;
      ArgsEnd(b, j, [], rs, x);
      t := Exec([]);
      NoWords(b);
    } else {
      NoRedirs(b, i, PrintWords(argv) + y, []);
      var args;
      args, rs, j := ArgsParse(b, i, [], argv, ch, x);
      assert [] + args == args;
      t := Exec(args);
    }
  }

  lemma NoWords(b: string)
    ensures Words(b, []) == []
  {
  }

  // ----- one step of each level -----

  lemma PipeStep(b: string, i: nat, l: Cmd<Span>, k: nat, r: Cmd<Span>, j: nat)
    requires Line(b) && i < |b| && ParseExec(b, i) == Ok(l, k) && SkipBlank(b, k) == k && b[k] == '|'
    requires Lex(b, k).next == k + 1 && ParsePipe(b, k + 1) == Ok(r, j)
    ensures ParsePipe(b, i) == Ok(Pipe(l, r), j)
  {
    hide Blank, Lex, SkipBlank, Line, ParseExec;
  }

  lemma PipeStop(b: string, i: nat, t: Cmd<Span>, j: nat, x: string)
    requires Line(b) && i < |b| && ParseExec(b, i) == Ok(t, j) && Rest(b, j, x) && Stops(x) && x[0] != '|'
    ensures ParsePipe(b, i) == Ok(t, j)
  {
    hide Blank, Lex, Line, ParseExec;
    StopsFacts(x);
    SolidRest(b, j, x);
  }

  lemma TailBack(b: string, k: nat, v: Cmd<Span>, x: string)
    requires Line(b) && Rest(b, k, ['&'] + x) && Solid(x)
    ensures k + 1 < |b| && Rest(b, k + 1, x) && ParseTail(b, k, v) == ParseTail(b, k + 1, Back(v))
  {
    hide Blank, Lex, SkipBlank, Line;
    SolidSymbols('&', x);
    SymbolToken(b, k, '&', x);
  }

  lemma TailList(b: string, k: nat, v: Cmd<Span>, x: string)
    requires Line(b) && Rest(b, k, [';'] + x) && Solid(x)
    ensures k + 1 < |b| && Rest(b, k + 1, x)
    ensures ParseLine(b, k + 1).Ok? ==>
              ParseTail(b, k, v) == Ok(List(v, ParseLine(b, k + 1).value), ParseLine(b, k + 1).next)
  {
    hide Blank, Lex, SkipBlank, Line, ParseLine;
    SolidSymbols(';', x);
    SymbolToken(b, k, ';', x);
  }

  lemma TailStop(b: string, k: nat, v: Cmd<Span>, x: string)
    requires Line(b) && Rest(b, k, x) && Ends(x)
    ensures k < |b| && ParseTail(b, k, v) == Ok(v, k)
  {
    StopsFacts(x);
    SolidRest(b, k, x);
  }

  lemma SolidSymbols(c: char, y: string)
    requires Symbol(c)
    ensures Solid([c] + y) && ([c] + y)[0] == c
  {
  }

  lemma GroupIs(c: Cmd<string>, s: Style, x: string)
    ensures Group(c, s) + x == ['('] + (Print(c, s) + ([')'] + x)) && Symbol('(') && Symbol(')') && Ends([')'] + x)
    ensures Solid(Group(c, s) + x) && (Group(c, s) + x)[0] == '('
  {
    assert Group(c, s)[0] == '(';
  }

  lemma BlockStep(b: string, i: nat, t: Cmd<Span>, k: nat)
    requires Line(b) && i < |b| && SkipBlank(b, i) == i && b[i] == '(' && Lex(b, i).next == i + 1 < |b|
    requires ParseLine(b, i + 1) == Ok(t, k) && SkipBlank(b, k) == k && b[k] == ')' && Lex(b, k).next == k + 1 < |b|
    ensures var r := Redirs(b, k + 1, []);
      ParseExec(b, i) == if r.Panic? then Panic(r.why) else Ok(Wrap(t, r.value), r.next)
  {
    hide Blank, Lex, SkipBlank, Line, ParseLine, Redirs;
    assert ParseBlock(b, i) == BlockTail(b, k, t);
  }

  lemma {:induction false} PrintSolid(c: Cmd<string>, s: Style, x: string)
    requires Clean(c) && Stops(x)
    ensures Solid(Print(c, s) + x) && forall n :: Solid(Operand(c, n, s) + x)
    decreases c
  {
    hide Blank, Symbol, CleanWord, PrintWords;
    GroupIs(c, s, x);
    StopsFacts(x);
    match c
    case Exec(argv) => WordsSolid(argv, x);
    case Redir(cmd, file, _, fd) =>
      var y := (if fd == 0 then "<" else ">") + file + " " + x;
      OperandSolid(cmd, 0, s, y);
      assert Print(c, s) + x == Operand(cmd, 0, s) + y;
    case Pipe(left, right) =>
      var y := "|" + Operand(right, 1, s) + x;
      PrintSolid(left, s, y);
      assert Print(c, s) + x == Operand(left, 0, s) + y;
    case List(left, right) =>
      var y := ";" + Operand(right, 3, s) + x;
      PrintSolid(left, s, y);
      assert Print(c, s) + x == Operand(left, 2, s) + y;
    case Back(cmd) =>
      PrintSolid(cmd, s, "&" + x);
      assert Print(c, s) + x == Operand(cmd, 2, s) + ("&" + x);
  }

  /** In front of a redirection stands a command, a redirection or a group. */
  lemma {:induction false} OperandSolid(c: Cmd<string>, n: nat, s: Style, x: string)
    requires Clean(c) && n == 0 && x != "" && (x[0] == '<' || x[0] == '>')
    ensures Solid(Operand(c, n, s) + x)
    decreases c
  {
    hide CleanWord;
    GroupIs(c, s, x);
    if Bare(c, n, s) {
      match c
      case Exec(argv) => WordsSolid(argv, x);
      case Redir(cmd, file, _, fd) =>
        var y := (if fd == 0 then "<" else ">") + file + " " + x;
        OperandSolid(cmd, 0, s, y);
        assert Print(c, s) + x == Operand(cmd, 0, s) + y;
      case _ =>
    }
  }

  // ----- parsing what was printed, level by level -----

  /** A tree in parentheses, up to the redirections behind them. */
  lemma {:induction false} GroupParses(c: Cmd<string>, s: Style, b: string, i: nat, x: string)
    returns (t: Cmd<Span>, j: nat)
    requires Line(b) && Clean(c) && Rest(b, i, Group(c, s) + x) && Solid(x)
    ensures i < |b| && j < |b| && Text(b, t) == c && Rest(b, j, x)
    ensures var r := Redirs(b, j, []);
      ParseExec(b, i) == if r.Panic? then Panic(r.why) else Ok(Wrap(t, r.value), r.next)
    decreases Size(c), 4
  {
    hide Blank, Symbol, WordChar, Lex, SkipBlank, Line, ParseExec, ParseBlock, BlockTail, ParseLine, Redirs, Text,
      Print, Group, Ends, Clean, Stops, Size;
    GroupIs(c, s, x);
    StopsFacts([')'] + x);
    SolidSymbols(')', x);
    var y := Print(c, s) + ([')'] + x);
    PrintSolid(c, s, [')'] + x);
    SymbolToken(b, i, '(', y);
    var k;
    t, k := LineParses(c, s, b, i + 1, [')'] + x);
    SymbolToken(b, k, ')', x);
    SolidRest(b, k + 1, x);
    j := k + 1;
    BlockStep(b, i, t, k);
  }

  /** A group without redirections behind it. */
  lemma {:induction false} GroupAlone(c: Cmd<string>, s: Style, b: string, i: nat, x: string)
    returns (t: Cmd<Span>, j: nat)
    requires Line(b) && Clean(c) && Rest(b, i, Group(c, s) + x) && Stops(x)
    ensures i < |b| && Text(b, t) == c && Rest(b, j, x) && ParseExec(b, i) == Ok(t, j)
    decreases Size(c), 5
  {
    hide Blank, Symbol, Lex, SkipBlank, Line, ParseExec, Text, Print, Group, Clean, Size;
    StopsFacts(x);
    t, j := GroupParses(c, s, b, i, x);
    NoRedirs(b, j, x, []);
  }

  /** A command, simple or in parentheses, with its redirections. */
  lemma {:induction false} ExecParses(c: Cmd<string>, s: Style, b: string, i: nat, x: string)
    returns (t: Cmd<Span>, j: nat)
    requires Line(b) && Clean(c) && Level(c) == 0 && Rest(b, i, Print(c, s) + x) && Stops(x)
    ensures i < |b| && ParseExec(b, i) == Ok(t, j) && Text(b, t) == c && Rest(b, j, x)
    decreases Size(c), 0
  {
    hide Blank, Symbol, Lex, SkipBlank, Line, ParseExec, Print, Group, Redirs, Size, PrintRedirs, Stops, CleanWord,
      Reads, Rest, Text, Wrap, Head, Chain, PrintHead, PrintWords;
    var ch := Chain(c, s);
    ChainPrints(c, s);
    PrintHeadIs(c, s);
    HeadFacts(c, s);
    assert Print(c, s) + x == PrintHead(c, s) + (PrintRedirs(ch) + x);
    var t0, rs;
    if Head(c, s).1 {
      t0, rs, j := GroupWith(Head(c, s).0, ch, s, b, i, x);
    } else {
      t0, rs, j := WordsParse(Head(c, s).0.argv, ch, b, i, x);
    }
    t := Wrap(t0, rs);
    ChainText(b, c, s, t0, rs);
  }

  /** A group with redirections behind it. */
  lemma {:induction false} GroupWith(c: Cmd<string>, ch: seq<(char, string)>, s: Style, b: string, i: nat, x: string)
    returns (t: Cmd<Span>, rs: seq<Redirection>, j: nat)
    requires Line(b) && Clean(c) && Rest(b, i, Group(c, s) + (PrintRedirs(ch) + x)) && Stops(x)
    requires forall k | 0 <= k < |ch| :: (ch[k].0 == '<' || ch[k].0 == '>') && CleanWord(ch[k].1)
    ensures i < |b| && ParseExec(b, i) == Ok(Wrap(t, rs), j) && Rest(b, j, x) && Text(b, t) == c && Reads(b, rs, ch)
    decreases Size(c), 5
  {
    hide Blank, Symbol, Lex, SkipBlank, Line, ParseExec, Print, Group, Redirs, Size, PrintRedirs, Stops, CleanWord,
      Reads, Rest, Text, Wrap;
    RedirsSolid(ch, x);
    var k;
    t, k := GroupParses(c, s, b, i, PrintRedirs(ch) + x);
    rs, j := RedirsRead(b, k, [], ch, x);
    assert [] + rs == rs;
  }

  lemma HeadFacts(c: Cmd<string>, s: Style)
    requires Clean(c) && Level(c) == 0
    ensures Clean(Head(c, s).0) && (if Head(c, s).1 then Size(Head(c, s).0) < Size(c) else Head(c, s).0.Exec?)
    ensures !Head(c, s).1 ==> Clean(Exec(Head(c, s).0.argv)) && Head(c, s).0 == Exec(Head(c, s).0.argv)
    ensures forall k | 0 <= k < |Chain(c, s)| ::
              (Chain(c, s)[k].0 == '<' || Chain(c, s)[k].0 == '>') && CleanWord(Chain(c, s)[k].1)
  {
  }

  lemma PrintHeadIs(c: Cmd<string>, s: Style)
    requires Level(c) == 0
    ensures PrintHead(c, s) == if Head(c, s).1 then Group(Head(c, s).0, s) else PrintWords(Head(c, s).0.argv)
  {
  }

  /** Commands joined by '|'. */
  lemma {:induction false} PipeParses(c: Cmd<string>, s: Style, b: string, i: nat, x: string)
    returns (t: Cmd<Span>, j: nat)
    requires Line(b) && Clean(c) && Level(c) <= 1 && Rest(b, i, Print(c, s) + x) && Stops(x) && x[0] != '|'
    ensures i < |b| && ParsePipe(b, i) == Ok(t, j) && Text(b, t) == c && Rest(b, j, x)
    decreases Size(c), 1
  {
    hide Blank, Symbol, Lex, SkipBlank, Line, ParseExec, ParsePipe, Print, Group, Stops, Rest;
    PrintCases(c, s);
    if c.Pipe? {
      var y := Operand(c.right, 1, s) + x;
      assert Print(c, s) + x == Operand(c.left, 0, s) + (['|'] + y);
      StopsFacts(x);
      PrintSolid(c.right, s, x);
      var l, k;
      if Bare(c.left, 0, s) {
        l, k := ExecParses(c.left, s, b, i, ['|'] + y);
      } else {
        l, k := GroupAlone(c.left, s, b, i, ['|'] + y);
      }
      SymbolToken(b, k, '|', y);
      var r;
      if Bare(c.right, 1, s) {
        r, j := PipeParses(c.right, s, b, k + 1, x);
      } else {
        r, j := GroupAlone(c.right, s, b, k + 1, x);
        PipeStop(b, k + 1, r, j, x);
      }
      t := Pipe(l, r);
      PipeStep(b, i, l, k, r, j);
    } else {
      t, j := ExecParses(c, s, b, i, x);
      PipeStop(b, i, t, j, x);
    }
  }

  /** Any number of '&' behind that: parseline's loop has come to j with the tree t. */
  ghost predicate LoopAt(b: string, i: nat, t: Cmd<Span>, j: nat)
    requires Line(b) && i < |b| && j < |b|
  {
    ParsePipe(b, i).Ok? && ParseTail(b, ParsePipe(b, i).next, ParsePipe(b, i).value) == ParseTail(b, j, t)
  }

  lemma {:induction false} BacksParses(c: Cmd<string>, s: Style, b: string, i: nat, x: string)
    returns (t: Cmd<Span>, j: nat)
    requires Line(b) && Clean(c) && Level(c) <= 2 && Rest(b, i, Print(c, s) + x) && Stops(x) && x[0] != '|'
    ensures i < |b| && j < |b| && LoopAt(b, i, t, j) && Text(b, t) == c && Rest(b, j, x)
    decreases Size(c), 2
  {
    hide Blank, Symbol, Lex, SkipBlank, Line, ParsePipe, ParseTail, Print, Group, Stops, Rest;
    PrintCases(c, s);
    StopsFacts(x);
    if c.Back? {
      assert Print(c, s) + x == Operand(c.cmd, 2, s) + (['&'] + x);
      var v, k;
      if Bare(c.cmd, 2, s) {
        v, k := BacksParses(c.cmd, s, b, i, ['&'] + x);
      } else {
        v, k := GroupAlone(c.cmd, s, b, i, ['&'] + x);
        PipeStop(b, i, v, k, ['&'] + x);
      }
      TailBack(b, k, v, x);
      t, j := Back(v), k + 1;
    } else {
      t, j := PipeParses(c, s, b, i, x);
      RestStop(b, j, x);
    }
  }

  lemma RestStop(b: string, j: nat, x: string)
    requires Rest(b, j, x) && x != ""
    ensures j < |b|
  {
  }

  lemma PrintCases(c: Cmd<string>, s: Style)
    ensures c.Pipe? ==> Print(c, s) == Operand(c.left, 0, s) + "|" + Operand(c.right, 1, s)
    ensures c.List? ==> Print(c, s) == Operand(c.left, 2, s) + ";" + Operand(c.right, 3, s)
    ensures c.Back? ==> Print(c, s) == Operand(c.cmd, 2, s) + "&"
    ensures !c.Exec? && !c.Redir? ==> c.Pipe? || c.List? || c.Back?
  {
  }

  /** Parsing the printed tree, wherever it stands, gives the tree and stops right behind it. */
  lemma {:induction false} LineParses(c: Cmd<string>, s: Style, b: string, i: nat, x: string)
    returns (t: Cmd<Span>, j: nat)
    requires Line(b) && Clean(c) && Rest(b, i, Print(c, s) + x) && Ends(x)
    ensures i < |b| && ParseLine(b, i) == Ok(t, j) && Text(b, t) == c && Rest(b, j, x)
    decreases Size(c), 3
  {
    hide Blank, Symbol, Lex, SkipBlank, Line, ParsePipe, ParseTail, Print, Group, Stops, Rest, Ends;
    PrintCases(c, s);
    StopsFacts(x);
    if c.List? {
      var y := Operand(c.right, 3, s) + x;
      assert Print(c, s) + x == Operand(c.left, 2, s) + ([';'] + y);
      PrintSolid(c.right, s, x);
      var l, k;
      if Bare(c.left, 2, s) {
        l, k := BacksParses(c.left, s, b, i, [';'] + y);
      } else {
        l, k := GroupAlone(c.left, s, b, i, [';'] + y);
        PipeStop(b, i, l, k, [';'] + y);
      }
      TailList(b, k, l, y);
      var r;
      if Bare(c.right, 3, s) {
        r, j := LineParses(c.right, s, b, k + 1, x);
      } else {
        r, j := GroupAlone(c.right, s, b, k + 1, x);
        PipeStop(b, k + 1, r, j, x);
        TailStop(b, j, r, x);
      }
      t := List(l, r);
    } else {
      t, j := BacksParses(c, s, b, i, x);
      TailStop(b, j, t, x);
    }
  }

  /** Parsing undoes printing, with parentheses just where they are needed or in any further places: '|' binds tighter
      than '&' and ';', redirections tighter still, and '|' and ';' nest to the right. */
  lemma RoundTrip(c: Cmd<string>, s: Style)
    requires Clean(c)
    ensures Line(LineOf(c, s)) && ParseCmd(LineOf(c, s)).Ok? && Text(LineOf(c, s), ParseCmd(LineOf(c, s)).value) == c
  {
    var b := LineOf(c, s);
    NoNul(c, s);
    assert Rest(b, 0, Print(c, s) + [NUL]);
    var t, j := LineParses(c, s, b, 0, [NUL]);
    SolidRest(b, j, [NUL]);
  }

  // ----- any line, whatever its blanks -----

  /** '|' binds tighter than the ';' or '&' behind it, which take the whole pipe. */
  lemma PipeBinds(b: string, i: nat, l: Cmd<Span>, k: nat, m: Cmd<Span>, p: nat)
    requires Line(b) && i < |b| && ParseExec(b, i) == Ok(l, k) && b[k] == '|' && k + 1 < |b|
    requires ParseExec(b, k + 1) == Ok(m, p) && (b[p] == ';' || b[p] == '&') && p + 1 < |b|
    ensures b[p] == ';' && ParseLine(b, p + 1).Ok? ==>
              ParseLine(b, i) == Ok(List(Pipe(l, m), ParseLine(b, p + 1).value), ParseLine(b, p + 1).next)
    ensures b[p] == '&' ==> ParseLine(b, i) == ParseTail(b, p + 1, Back(Pipe(l, m)))
  {
    hide Blank, Line, SkipBlank, ParseExec, ParsePipe, ParseLine, ParseTail, Lex;
    SymbolNext(b, k);
    SymbolNext(b, p);
    LineSkips(b, k + 1);
    PipeStep2(b, i, l, k, m, p);
    LineAfter(b, i, Pipe(l, m), p);
  }

  /** What parseline does behind a pipe. */
  lemma LineAfter(b: string, i: nat, v: Cmd<Span>, p: nat)
    requires Line(b) && i < |b| && p + 1 < |b| && ParsePipe(b, i) == Ok(v, p) && SkipBlank(b, p) == p
    requires (b[p] == ';' || b[p] == '&') && Lex(b, p).next == SkipBlank(b, p + 1)
    ensures b[p] == ';' && ParseLine(b, p + 1).Ok? ==>
              ParseLine(b, i) == Ok(List(v, ParseLine(b, p + 1).value), ParseLine(b, p + 1).next)
    ensures b[p] == '&' ==> ParseLine(b, i) == ParseTail(b, p + 1, Back(v))
  {
    hide Blank, Line, SkipBlank, ParsePipe, Lex;
    LineSkips(b, p + 1);
    TailSkips(b, p + 1, Back(v));
    assert ParseLine(b, i) == ParseTail(b, p, v);
  }

  lemma SymbolNext(b: string, k: nat)
    requires Line(b) && k + 1 < |b| && (b[k] == '|' || b[k] == ';' || b[k] == '&')
    ensures SkipBlank(b, k) == k && Lex(b, k).next == SkipBlank(b, k + 1)
  {
  }

  lemma PipeStep2(b: string, i: nat, l: Cmd<Span>, k: nat, m: Cmd<Span>, p: nat)
    requires Line(b) && i < |b| && ParseExec(b, i) == Ok(l, k) && SkipBlank(b, k) == k && b[k] == '|' && k + 1 < |b|
    requires Lex(b, k).next == SkipBlank(b, k + 1) && ParsePipe(b, SkipBlank(b, k + 1)) == ParsePipe(b, k + 1)
    requires ParseExec(b, k + 1) == Ok(m, p) && SkipBlank(b, p) == p && b[p] != '|'
    ensures ParsePipe(b, i) == Ok(Pipe(l, m), p)
  {
    hide Blank, Line, SkipBlank, ParseExec, Lex;
    assert ParsePipe(b, k + 1) == Ok(m, p);
  }

  lemma LineSkips(b: string, i: nat)
    requires Line(b) && i < |b|
    ensures ParsePipe(b, SkipBlank(b, i)) == ParsePipe(b, i) && ParseLine(b, SkipBlank(b, i)) == ParseLine(b, i)
  {
    hide Line, SkipBlank, ParseExec, Lex, ParseTail;
    ExecSkips(b, i);
    assert ParsePipe(b, SkipBlank(b, i)) == ParsePipe(b, i);
  }

  lemma TailSkips(b: string, i: nat, c: Cmd<Span>)
    requires Line(b) && i < |b|
    ensures ParseTail(b, SkipBlank(b, i), c) == ParseTail(b, i, c)
  {
    SkipTwice(b, i);
  }

  lemma SkipTwice(b: string, i: nat)
    requires i < |b|
    ensures SkipBlank(b, SkipBlank(b, i)) == SkipBlank(b, i)
  {
  }

  lemma ExecSkips(b: string, i: nat)
    requires Line(b) && i < |b|
    ensures ParseExec(b, SkipBlank(b, i)) == ParseExec(b, i)
  {
    SkipTwice(b, i);
  }

  /** ">>" opens its file like '>'. */
  lemma AppendReads(b: string, i: nat, rs: seq<Redirection>, file: string, z: string)
    requires Line(b) && CleanWord(file) && Solid(z) && Rest(b, i, ">>" + (file + " " + z))
    ensures i + 2 + |file| + 1 < |b| && Word(b, Span(i + 2, i + 2 + |file|)) == file
    ensures Redirs(b, i, rs) == Redirs(b, i + 2 + |file| + 1, rs + [Redirection(Span(i + 2, i + 2 + |file|), 0x201, 1)])
  {
    hide Blank, WordChar, Lex, SkipBlank, Line, Word, Rest, CleanWord;
    ReadsFile(file);
    var y := file + " " + z;
    assert y[0] == file[0] && ">>" + y == ['>'] + (['>'] + y);
    RestStep(b, i, '>', ['>'] + y);
    RestStep(b, i + 1, '>', y);
    WordToken(b, i + 2, file, z);
    SolidRest(b, i + 2 + |file| + 1, z);
    AppendToken(b, i);
  }

  lemma AppendToken(b: string, i: nat)
    requires Line(b) && i + 2 < |b| && b[i] == '>' && b[i + 1] == '>' && SkipBlank(b, i + 2) == i + 2
    ensures SkipBlank(b, i) == i && Lex(b, i) == Token('+', i, i + 2, i + 2)
    ensures forall file :: Redirected('+', file) == Redirection(file, 0x201, 1)
  {
  }

  // ----- lines that are refused -----

  /** Ten words are too many. */
  lemma TooManyArgs(ws: seq<string>)
    requires |ws| >= 10 && forall k | 0 <= k < |ws| :: CleanWord(ws[k])
    ensures Line(PrintWords(ws) + [NUL]) && ParseCmd(PrintWords(ws) + [NUL]) == Panic("too many args")
  {
    hide CleanWord, PrintWords, Lex, SkipBlank, ParseArgs, Redirs, Blank, WordChar, Rest, Stops;
    var b := PrintWords(ws) + [NUL];
    StopsFacts([NUL]);
    NoNulWords(ws);
    assert Line(b);
    RestAll(b);
    WordsSolid(ws, [NUL]);
    SolidRest(b, 0, PrintWords(ws) + [NUL]);
    NoRedirs(b, 0, PrintWords(ws) + [NUL], []);
    ManyArgs(b, 0, [], ws, [NUL]);
    ArgsFail(b, "too many args");
  }

  lemma ArgsFail(b: string, why: string)
    requires Line(b) && SkipBlank(b, 0) == 0 && b[0] != '(' && Redirs(b, 0, []) == Ok([], 0)
    requires ParseArgs(b, 0, [], []) == Panic(why)
    ensures ParseCmd(b) == Panic(why)
  {
    hide Lex, SkipBlank, Redirs, ParseArgs, Line, Blank;
    ExecFails(b, why);
  }

  lemma ExecFails(b: string, why: string)
    requires Line(b) && ParseExec(b, 0) == Panic(why)
    ensures ParseCmd(b) == Panic(why)
  {
    hide ParseExec, SkipBlank;
    assert ParsePipe(b, 0) == Panic(why);
    assert ParseLine(b, 0) == Panic(why);
  }

  lemma RestAll(b: string)
    ensures Rest(b, 0, b) && Ends([NUL])
  {
  }

  lemma {:induction false} ManyArgs(b: string, i: nat, argv: seq<Span>, ws: seq<string>, x: string)
    requires Line(b) && Rest(b, i, PrintWords(ws) + x) && Stops(x) && forall k | 0 <= k < |ws| :: CleanWord(ws[k])
    requires |argv| < MAXARGS <= |argv| + |ws|
    ensures i < |b| && ParseArgs(b, i, argv, []) == Panic("too many args")
    decreases |ws|
  {
    hide CleanWord, PrintWords, Lex, SkipBlank, Line, Redirs, Rest, NextArg, Stops;
    PrintWordsCons(ws, x);
    StopsFacts(x);
    WordsSolid(ws[1..], x);
    var z := PrintWords(ws[1..]) + x;
    var here := OneArg(b, i, ws[0], z);
    var e := i + |ws[0]| + 1;
    if |argv| + 1 < MAXARGS {
      NoRedirs(b, e, z, []);
      ManyArgs(b, e, argv + [here], ws[1..], x);
      ArgsStep(b, i, argv, here, e, [], e);
    }
  }

  /** A '(' behind a word. */
  lemma ParenBehind(ws: seq<string>)
    requires 0 < |ws| < 10 && forall k | 0 <= k < |ws| :: CleanWord(ws[k])
    ensures Line(PrintWords(ws) + "(" + [NUL]) && ParseCmd(PrintWords(ws) + "(" + [NUL]) == Panic("syntax")
  {
    hide CleanWord, PrintWords, Lex, SkipBlank, ParseArgs, Redirs, Blank, WordChar, Rest;
    var b := PrintWords(ws) + "(" + [NUL];
    NoNulWords(ws);
    assert Line(b) && b == PrintWords(ws) + ['(', NUL];
    RestAll(b);
    SolidSymbols('(', [NUL]);
    assert ['('] + [NUL] == ['(', NUL];
    FirstWord(ws, ['(', NUL]);
    SolidRest(b, 0, b);
    NoRedirs(b, 0, b, []);
    ArgsMeet(b, 0, [], ws, ['(', NUL]);
    ArgsFail(b, "syntax");
  }

  lemma FirstWord(ws: seq<string>, y: string)
    requires ws != [] && forall k | 0 <= k < |ws| :: CleanWord(ws[k])
    ensures Solid(PrintWords(ws) + y)
    ensures var c := (PrintWords(ws) + y)[0]; c != '(' && c != '<' && c != '>'
  {
    hide PrintWords, CleanWord, Blank, Symbol;
    PrintWordsCons(ws, y);
    ReadsFile(ws[0]);
    assert (ws[0] + " " + (PrintWords(ws[1..]) + y))[0] == ws[0][0];
  }

  lemma {:induction false} ArgsMeet(b: string, i: nat, argv: seq<Span>, ws: seq<string>, x: string)
    requires Line(b) && Rest(b, i, PrintWords(ws) + x) && Solid(x) && x[0] == '('
    requires |argv| + |ws| < MAXARGS && forall k | 0 <= k < |ws| :: CleanWord(ws[k])
    ensures i < |b| && ParseArgs(b, i, argv, []) == Panic("syntax")
    decreases |ws|
  {
    hide CleanWord, PrintWords, Lex, SkipBlank, Line, Redirs, Rest, NextArg;
    PrintWordsCons(ws, x);
    if ws == [] {
      ParenMet(b, i, x);
    } else {
      var z := PrintWords(ws[1..]) + x;
      PrintWordsCons(ws[1..], x);
      if |ws| > 1 { FirstWord(ws[1..], x); }
      var here := OneArg(b, i, ws[0], z);
      var e := i + |ws[0]| + 1;
      NoRedirs(b, e, z, []);
      ArgsMeet(b, e, argv + [here], ws[1..], x);
      ArgsStep(b, i, argv, here, e, [], e);
    }
  }

  lemma ParenMet(b: string, i: nat, x: string)
    requires Line(b) && Rest(b, i, x) && Solid(x) && x[0] == '('
    ensures i < |b| && NextArg(b, i) == NotWord
  {
    SolidRest(b, i, x);
  }

  /** A ')' too much behind a command is left over. */
  lemma Leftovers(c: Cmd<string>, s: Style)
    requires Clean(c)
    ensures var b := Print(c, s) + ")" + [NUL]; Line(b) && ParseCmd(b) == Panic("syntax")
  {
    hide Print, ParseLine, Clean, Lex, Text;
    var b := Print(c, s) + ")" + [NUL];
    NoNul(c, s);
    assert b == Print(c, s) + [')', NUL] && Rest(b, 0, Print(c, s) + [')', NUL]);
    var t, j := LineParses(c, s, b, 0, [')', NUL]);
    SolidRest(b, j, [')', NUL]);
  }

  /** A '(' without its ')'. */
  lemma Unclosed(c: Cmd<string>, s: Style)
    requires Clean(c)
    ensures var b := "(" + Print(c, s) + [NUL]; Line(b) && ParseCmd(b) == Panic("syntax - missing )")
  {
    hide Print, Clean, Text, Blank, WordChar, Redirs, Lex, SkipBlank, ParseLine, Stops, Rest;
    var x := Print(c, s) + [NUL];
    var b := "(" + Print(c, s) + [NUL];
    NoNul(c, s);
    assert b == ['('] + x;
    assert Line(b);
    RestAll(b);
    StopsFacts([NUL]);
    PrintSolid(c, s, [NUL]);
    SymbolToken(b, 0, '(', x);
    var t, j := LineParses(c, s, b, 1, [NUL]);
    SolidRest(b, j, [NUL]);
    BlockFails(b, t, j);
  }

  lemma BlockFails(b: string, t: Cmd<Span>, j: nat)
    requires Line(b) && SkipBlank(b, 0) == 0 && b[0] == '(' && 1 < |b| && Lex(b, 0).next == 1
    requires ParseLine(b, 1) == Ok(t, j) && SkipBlank(b, j) == j && b[j] != ')'
    ensures ParseCmd(b) == Panic("syntax - missing )")
  {
    hide Lex, SkipBlank, Redirs, Line, Blank;
    assert ParseBlock(b, 0) == Panic("syntax - missing )");
    ExecFails(b, "syntax - missing )");
  }

  /** A redirection without a file. */
  lemma MissingFile(b: string, i: nat, rs: seq<Redirection>)
    requires Line(b) && i < |b| && (b[SkipBlank(b, i)] == '<' || b[SkipBlank(b, i)] == '>')
    requires !WordChar(b[Lex(b, SkipBlank(b, i)).next])
    ensures Redirs(b, i, rs) == Panic("missing file for redirection")
  {
  }

  lemma {:induction false} NoNul(c: Cmd<string>, s: Style)
    requires Clean(c)
    ensures NUL !in Print(c, s) && NUL !in Group(c, s)
  {
    match c
    case Exec(argv) => NoNulWords(argv);
    case Redir(cmd, file, _, _) => NoNul(cmd, s); assert NUL !in file;
    case Pipe(left, right) => NoNul(left, s); NoNul(right, s);
    case List(left, right) => NoNul(left, s); NoNul(right, s);
    case Back(cmd) => NoNul(cmd, s);
  }

  lemma {:induction false} NoNulWords(ws: seq<string>)
    requires forall k | 0 <= k < |ws| :: CleanWord(ws[k])
    ensures NUL !in PrintWords(ws)
  {
    if ws != [] { NoNulWords(ws[1..]); assert CleanWord(ws[0]); }
  }

  // ----- what the parser can yield -----

  /** A word of the line, as long as it can be. */
  predicate WordSpan(b: string, w: Span) {
    w.q < w.eq < |b| && !WordChar(b[w.eq]) && forall k | w.q <= k < w.eq :: WordChar(b[k])
  }

  predicate Neat(b: string, c: Cmd<Span>) {
    match c
    case Exec(argv) => |argv| < MAXARGS && forall k | 0 <= k < |argv| :: WordSpan(b, argv[k])
    case Redir(cmd, file, mode, fd) =>
      Neat(b, cmd) && WordSpan(b, file) && ((mode == O_RDONLY && fd == 0) || (mode == O_WRONLY + O_CREATE && fd == 1))
    case Pipe(left, right) => Neat(b, left) && Neat(b, right)
    case List(left, right) => Neat(b, left) && Neat(b, right)
    case Back(cmd) => Neat(b, cmd)
  }

  lemma NeatIsClean(b: string, c: Cmd<Span>)
    requires Neat(b, c)
    ensures Clean(Text(b, c))
  {
    hide WordChar;
    match c
    case Exec(argv) =>
      forall k | 0 <= k < |argv| ensures CleanWord(Word(b, argv[k])) { assert WordSpan(b, argv[k]); }
    case Redir(cmd, file, _, _) => NeatIsClean(b, cmd);
    case Pipe(left, right) => NeatIsClean(b, left); NeatIsClean(b, right);
    case List(left, right) => NeatIsClean(b, left); NeatIsClean(b, right);
    case Back(cmd) => NeatIsClean(b, cmd);
  }

  lemma LexedWord(b: string, i: nat)
    requires Line(b) && i < |b| && Lex(b, i).kind == 'a'
    ensures WordSpan(b, Span(Lex(b, i).q, Lex(b, i).eq))
  {
    var q := SkipBlank(b, i);
    var e := WordEnd(b, q);
    assert forall k | q <= k < e :: WordChar(b[k]);
  }

  predicate NeatRedirs(b: string, rs: seq<Redirection>) {
    forall k | 0 <= k < |rs| ::
      WordSpan(b, rs[k].file) &&
      ((rs[k].mode == O_RDONLY && rs[k].fd == 0) || (rs[k].mode == O_WRONLY + O_CREATE && rs[k].fd == 1))
  }

  lemma {:induction false} RedirsNeat(b: string, i: nat, rs: seq<Redirection>)
    requires Line(b) && i < |b| && NeatRedirs(b, rs)
    ensures Redirs(b, i, rs).Ok? ==> NeatRedirs(b, Redirs(b, i, rs).value)
    decreases |b| - i
  {
    hide WordSpan, Lex, SkipBlank, Line;
    var j := SkipBlank(b, i);
    if b[j] == '<' || b[j] == '>' {
      var tok := Lex(b, j);
      var file := Lex(b, tok.next);
      if file.kind == 'a' {
        LexedWord(b, tok.next);
        LexMoves(b, j);
        RedirsNeat(b, file.next, rs + [Redirected(tok.kind, Span(file.q, file.eq))]);
      }
    }
  }

  lemma LexMoves(b: string, i: nat)
    requires Line(b) && i < |b|
    ensures i <= Lex(b, i).next < |b| && (b[i] != NUL && !Blank(b[i]) ==> i < Lex(b, i).next)
  {
  }

  lemma {:induction false} WrapNeat(b: string, c: Cmd<Span>, rs: seq<Redirection>)
    requires Neat(b, c) && NeatRedirs(b, rs)
    ensures Neat(b, Wrap(c, rs))
    decreases |rs|
  {
    if rs != [] { WrapNeat(b, c, rs[..|rs| - 1]); }
  }

  lemma {:induction false} ArgsNeat(b: string, i: nat, argv: seq<Span>, rs: seq<Redirection>)
    requires Line(b) && i < |b| && Neat(b, Exec(argv)) && NeatRedirs(b, rs)
    ensures ParseArgs(b, i, argv, rs).Ok? ==> Neat(b, ParseArgs(b, i, argv, rs).value)
    decreases |b| - i
  {
    hide WordSpan, Lex, SkipBlank, NextArg, NeatRedirs, Line;
    match NextArg(b, i)
    case NoArg(at) => WrapNeat(b, Exec(argv), rs);
    case NotWord =>
    case Arg(word, next) =>
      ArgIsWord(b, i);
      var r := Redirs(b, next, rs);
      RedirsNeat(b, next, rs);
      if r.Ok? && |argv| + 1 < MAXARGS { ArgsNeat(b, r.next, argv + [word], r.value); }
  }

  lemma ArgIsWord(b: string, i: nat)
    requires Line(b) && i < |b| && NextArg(b, i).Arg?
    ensures WordSpan(b, NextArg(b, i).word) && i < NextArg(b, i).next < |b|
  {
    hide WordSpan;
    LexedWord(b, SkipBlank(b, i));
  }

  /** The four nonterminals, by what they yield. */
  predicate Fine(b: string, p: Parsed<Cmd<Span>>) {
    p.Ok? ==> Neat(b, p.value)
  }

  lemma {:induction false} LineNeat(b: string, i: nat)
    requires Line(b) && i < |b|
    ensures Fine(b, ParseLine(b, i))
    decreases |b| - i, 4
  {
    hide Lex, SkipBlank, Line, ParsePipe;
    PipeNeat(b, i);
    var p := ParsePipe(b, i);
    if p.Ok? { TailNeat(b, p.next, p.value); }
  }

  lemma {:induction false} TailNeat(b: string, i: nat, c: Cmd<Span>)
    requires Line(b) && i < |b| && Neat(b, c)
    ensures Fine(b, ParseTail(b, i, c))
    decreases |b| - i, 0
  {
    hide Lex, ParseLine;
    var j := SkipBlank(b, i);
    LexMoves(b, j);
    if b[j] == '&' {
      TailNeat(b, Lex(b, j).next, Back(c));
    } else if b[j] == ';' {
      LineNeat(b, Lex(b, j).next);
    }
  }

  lemma {:induction false} PipeNeat(b: string, i: nat)
    requires Line(b) && i < |b|
    ensures Fine(b, ParsePipe(b, i))
    decreases |b| - i, 3
  {
    hide Lex, ParseExec;
    ExecNeat(b, i);
    var p := ParseExec(b, i);
    if p.Ok? {
      var j := SkipBlank(b, p.next);
      LexMoves(b, j);
      if b[j] == '|' { PipeNeat(b, Lex(b, j).next); }
    }
  }

  lemma {:induction false} ExecNeat(b: string, i: nat)
    requires Line(b) && i < |b|
    ensures Fine(b, ParseExec(b, i))
    decreases |b| - i, 2
  {
    hide Lex, Redirs, ParseArgs, ParseBlock;
    var j := SkipBlank(b, i);
    if b[j] == '(' {
      BlockNeat(b, j);
    } else {
      RedirsNeat(b, j, []);
      var r := Redirs(b, j, []);
      if r.Ok? { ArgsNeat(b, r.next, [], r.value); }
    }
  }

  lemma {:induction false} BlockNeat(b: string, i: nat)
    requires Line(b) && i < |b|
    ensures Fine(b, ParseBlock(b, i))
    decreases |b| - i, 1
  {
    hide Lex, Redirs, ParseLine;
    var j := SkipBlank(b, i);
    LexMoves(b, j);
    if b[j] == '(' {
      LineNeat(b, Lex(b, j).next);
      var body := ParseLine(b, Lex(b, j).next);
      if body.Ok? {
        var k := SkipBlank(b, body.next);
        LexMoves(b, k);
        if b[k] == ')' {
          var e := Lex(b, k).next;
          RedirsNeat(b, e, []);
          if Redirs(b, e, []).Ok? { WrapNeat(b, body.value, Redirs(b, e, []).value); }
        }
      }
    }
  }

  /** The shell yields exactly the clean trees: every tree it parses is clean, and printing and parsing
      that tree again changes nothing. */
  lemma ParsedIsClean(b: string, s: Style)
    requires Line(b) && ParseCmd(b).Ok?
    ensures Neat(b, ParseCmd(b).value) && Clean(Text(b, ParseCmd(b).value))
    ensures var t := Text(b, ParseCmd(b).value);
      Line(LineOf(t, s)) && ParseCmd(LineOf(t, s)).Ok? && Text(LineOf(t, s), ParseCmd(LineOf(t, s)).value) == t
  {
    LineNeat(b, 0);
    NeatIsClean(b, ParseCmd(b).value);
    RoundTrip(Text(b, ParseCmd(b).value), s);
  }

  // ----- terminating the words in place -----

  predicate Within(c: Cmd<Span>, n: nat) {
    match c
    case Exec(argv) => forall k | 0 <= k < |argv| :: argv[k].eq < n
    case Redir(cmd, file, _, _) => Within(cmd, n) && file.eq < n
    case Pipe(left, right) => Within(left, n) && Within(right, n)
    case List(left, right) => Within(left, n) && Within(right, n)
    case Back(cmd) => Within(cmd, n)
  }

  function Blot(b: string, k: nat): (r: string)
    ensures |r| == |b|
  {
    if k < |b| then b[k := NUL] else b
  }

  function BlotWords(b: string, ws: seq<Span>): (r: string)
    ensures |r| == |b|
  {
    if ws == [] then b else Blot(BlotWords(b, ws[..|ws| - 1]), ws[|ws| - 1].eq)
  }

  /** A NUL behind every word of the tree. */
  function Terminated(b: string, c: Cmd<Span>): (r: string)
    ensures |r| == |b|
    decreases c
  {
    match c
    case Exec(argv) => BlotWords(b, argv)
    case Redir(cmd, file, _, _) => Blot(Terminated(b, cmd), file.eq)
    case Pipe(left, right) => Terminated(Terminated(b, left), right)
    case List(left, right) => Terminated(Terminated(b, left), right)
    case Back(cmd) => Terminated(b, cmd)
  }

  /** The string a C program sees at q. */
  function CString(b: string, q: nat): string
    decreases |b| - q
  {
    if q < |b| && b[q] != NUL then [b[q]] + CString(b, q + 1) else ""
  }

  function CStrings(b: string, ws: seq<Span>): (r: seq<string>)
    ensures |r| == |ws| && forall k | 0 <= k < |ws| :: r[k] == CString(b, ws[k].q)
  {
    seq(|ws|, k requires 0 <= k < |ws| => CString(b, ws[k].q))
  }

  /** The tree as runcmd sees it, through the pointers to the starts of its words. */
  function CText(b: string, c: Cmd<Span>): Cmd<string> {
    match c
    case Exec(argv) => Exec(CStrings(b, argv))
    case Redir(cmd, file, mode, fd) => Redir(CText(b, cmd), CString(b, file.q), mode, fd)
    case Pipe(left, right) => Pipe(CText(b, left), CText(b, right))
    case List(left, right) => List(CText(b, left), CText(b, right))
    case Back(cmd) => Back(CText(b, cmd))
  }

  /** b2 is b with some characters outside words replaced by NUL. */
  predicate Blotted(b: string, b2: string) {
    |b2| == |b| && forall k | 0 <= k < |b| :: b2[k] == b[k] || (b2[k] == NUL && !WordChar(b[k]))
  }

  predicate Ended(b: string, c: Cmd<Span>) {
    match c
    case Exec(argv) => forall k | 0 <= k < |argv| :: argv[k].eq < |b| && b[argv[k].eq] == NUL
    case Redir(cmd, file, _, _) => Ended(b, cmd) && file.eq < |b| && b[file.eq] == NUL
    case Pipe(left, right) => Ended(b, left) && Ended(b, right)
    case List(left, right) => Ended(b, left) && Ended(b, right)
    case Back(cmd) => Ended(b, cmd)
  }

  predicate NulsStay(b: string, b2: string) {
    |b2| == |b| && forall k | 0 <= k < |b| && b[k] == NUL :: b2[k] == NUL
  }

  lemma {:induction false} EndedStays(b: string, b2: string, c: Cmd<Span>)
    requires Ended(b, c) && NulsStay(b, b2)
    ensures Ended(b2, c)
  {
    match c
    case Exec(argv) =>
    case Redir(cmd, file, _, _) => EndedStays(b, b2, cmd);
    case Pipe(left, right) => EndedStays(b, b2, left); EndedStays(b, b2, right);
    case List(left, right) => EndedStays(b, b2, left); EndedStays(b, b2, right);
    case Back(cmd) => EndedStays(b, b2, cmd);
  }

  lemma {:induction false} BlotWordsEnds(b: string, b1: string, ws: seq<Span>)
    requires Blotted(b, b1) && forall k | 0 <= k < |ws| :: WordSpan(b, ws[k])
    ensures Blotted(b, BlotWords(b1, ws)) && NulsStay(b1, BlotWords(b1, ws))
    ensures forall k | 0 <= k < |ws| :: ws[k].eq < |b1| && BlotWords(b1, ws)[ws[k].eq] == NUL
    decreases |ws|
  {
    hide WordChar;
    if ws != [] { BlotWordsEnds(b, b1, ws[..|ws| - 1]); }
  }

  lemma {:induction false} TerminatedEnds(b: string, b1: string, c: Cmd<Span>)
    requires Blotted(b, b1) && Neat(b, c)
    ensures Blotted(b, Terminated(b1, c)) && NulsStay(b1, Terminated(b1, c)) && Ended(Terminated(b1, c), c)
    decreases c, 1
  {
    hide WordChar;
    match c
    case Exec(argv) => BlotWordsEnds(b, b1, argv);
    case Redir(cmd, file, _, _) =>
      TerminatedEnds(b, b1, cmd);
      EndedStays(Terminated(b1, cmd), Terminated(b1, c), cmd);
    case Pipe(left, right) => BothEnd(b, b1, c, left, right);
    case List(left, right) => BothEnd(b, b1, c, left, right);
    case Back(cmd) => TerminatedEnds(b, b1, cmd);
  }

  lemma {:induction false} BothEnd(b: string, b1: string, c: Cmd<Span>, left: Cmd<Span>, right: Cmd<Span>)
    requires Blotted(b, b1) && Neat(b, left) && Neat(b, right) && (c == Pipe(left, right) || c == List(left, right))
    ensures var b2 := Terminated(Terminated(b1, left), right);
      Blotted(b, b2) && NulsStay(b1, b2) && Ended(b2, left) && Ended(b2, right)
    decreases c, 0
  {
    TerminatedEnds(b, b1, left);
    var b2 := Terminated(b1, left);
    TerminatedEnds(b, b2, right);
    EndedStays(b2, Terminated(b2, right), left);
  }

  lemma {:induction false} CStringIs(b: string, b2: string, q: nat, e: nat)
    requires q <= e < |b| && Blotted(b, b2) && b2[e] == NUL && forall k | q <= k < e :: WordChar(b[k])
    ensures CString(b2, q) == b[q..e]
    decreases e - q
  {
    if q < e {
      assert WordChar(b[q]) && b[q] != NUL;
      CStringIs(b, b2, q + 1, e);
    }
  }

  lemma {:induction false} CTextIs(b: string, b2: string, c: Cmd<Span>)
    requires Blotted(b, b2) && Neat(b, c) && Ended(b2, c)
    ensures CText(b2, c) == Text(b, c)
  {
    hide WordChar, Blotted;
    match c
    case Exec(argv) =>
      forall k | 0 <= k < |argv| ensures CString(b2, argv[k].q) == Word(b, argv[k]) {
        assert WordSpan(b, argv[k]);
        CStringIs(b, b2, argv[k].q, argv[k].eq);
      }
      assert CStrings(b2, argv) == Words(b, argv);
    case Redir(cmd, file, _, _) => CTextIs(b, b2, cmd); CStringIs(b, b2, file.q, file.eq);
    case Pipe(left, right) => CTextIs(b, b2, left); CTextIs(b, b2, right);
    case List(left, right) => CTextIs(b, b2, left); CTextIs(b, b2, right);
    case Back(cmd) => CTextIs(b, b2, cmd);
  }

  /** Writing the NULs spoils no word: the C strings of the parsed tree are the words it was parsed from. */
  lemma TerminatedReads(b: string)
    requires Line(b) && ParseCmd(b).Ok?
    ensures var c := ParseCmd(b).value; CText(Terminated(b, c), c) == Text(b, c)
  {
    LineNeat(b, 0);
    var c := ParseCmd(b).value;
    TerminatedEnds(b, b, c);
    CTextIs(b, Terminated(b, c), c);
  }

  lemma {:induction false} NeatIsWithin(b: string, c: Cmd<Span>)
    requires Neat(b, c)
    ensures Within(c, |b|)
  {
    match c
    case Exec(argv) => assert forall k | 0 <= k < |argv| :: WordSpan(b, argv[k]);
    case Redir(cmd, file, _, _) => NeatIsWithin(b, cmd);
    case Pipe(left, right) => NeatIsWithin(b, left); NeatIsWithin(b, right);
    case List(left, right) => NeatIsWithin(b, left); NeatIsWithin(b, right);
    case Back(cmd) => NeatIsWithin(b, cmd);
  }
}
