/** The shell's recursive-descent parser as it runs (sh.c): a cursor moved over the line, nodes allocated
    and filled in afterwards, and NULs written into the line at the end. */
module ShellParser {
  import opened ShellGrammar

  /** A node's pointers are indices of older nodes. */
  datatype Node =
    | ExecNode(argv: seq<Span>)
    | RedirNode(cmd: nat, file: Span, mode: nat, fd: nat)
    | PipeNode(left: nat, right: nat)
    | ListNode(left: nat, right: nat)
    | BackNode(cmd: nat)

  datatype Outcome = Root(node: nat) | Died(why: string)

  /** The tree below node k. */
  function Tree(ns: seq<Node>, k: nat): Cmd<Span>
    decreases k
  {
    if k >= |ns| then Exec([])
    else
      match ns[k]
      case ExecNode(argv) => Exec(argv)
      case RedirNode(cmd, file, mode, fd) => if cmd < k then Redir(Tree(ns, cmd), file, mode, fd) else Exec([])
      case PipeNode(left, right) => if left < k && right < k then Pipe(Tree(ns, left), Tree(ns, right)) else Exec([])
      case ListNode(left, right) => if left < k && right < k then List(Tree(ns, left), Tree(ns, right)) else Exec([])
      case BackNode(cmd) => if cmd < k then Back(Tree(ns, cmd)) else Exec([])
  }

  /** Pointers go to older nodes. */
  predicate Ordered(ns: seq<Node>) {
    forall k | 0 <= k < |ns| ::
      match ns[k]
      case ExecNode(_) => true
      case RedirNode(cmd, _, _, _) => cmd < k
      case PipeNode(left, right) => left < k && right < k
      case ListNode(left, right) => left < k && right < k
      case BackNode(cmd) => cmd < k
  }

  lemma {:induction false} TreeStays(ns: seq<Node>, ms: seq<Node>, k: nat)
    requires k < |ns| && ns <= ms
    ensures Tree(ms, k) == Tree(ns, k)
    decreases k
  {
    match ns[k]
    case ExecNode(_) =>
    case RedirNode(cmd, _, _, _) => if cmd < k { TreeStays(ns, ms, cmd); }
    case PipeNode(left, right) => if left < k && right < k { TreeStays(ns, ms, left); TreeStays(ns, ms, right); }
    case ListNode(left, right) => if left < k && right < k { TreeStays(ns, ms, left); TreeStays(ns, ms, right); }
    case BackNode(cmd) => if cmd < k { TreeStays(ns, ms, cmd); }
  }

  /** The redirection nodes stacked on node e, in the places behind it. */
  function Links(e: nat, rs: seq<Redirection>): (ns: seq<Node>)
    ensures |ns| == |rs|
    ensures forall k | 0 <= k < |rs| :: ns[k] == RedirNode(e + k, rs[k].file, rs[k].mode, rs[k].fd)
  {
    seq(|rs|, k requires 0 <= k < |rs| => RedirNode(e + k, rs[k].file, rs[k].mode, rs[k].fd))
  }

  lemma {:induction false} LinksWrap(base: seq<Node>, rs: seq<Redirection>)
    requires base != []
    ensures Tree(base + Links(|base| - 1, rs), |base| + |rs| - 1) == Wrap(Tree(base, |base| - 1), rs)
    ensures Ordered(base) ==> Ordered(base + Links(|base| - 1, rs))
    decreases |rs|
  {
    var ns := base + Links(|base| - 1, rs);
    if rs == [] {
      assert ns == base;
    } else {
      var less := rs[..|rs| - 1];
      LinksWrap(base, less);
      assert base + Links(|base| - 1, less) <= ns;
      TreeStays(base + Links(|base| - 1, less), ns, |base| + |rs| - 2);
    }
  }

  lemma LinksSnoc(base: seq<Node>, rs: seq<Redirection>, r: Redirection)
    requires base != []
    ensures base + Links(|base| - 1, rs + [r])
      == base + Links(|base| - 1, rs) + [RedirNode(|base| + |rs| - 1, r.file, r.mode, r.fd)]
  {
  }

  /** A parse function that started at `was` with the nodes `before` did what the grammar says: it died for
      the same reason, or its tree stands at the last node and the cursor behind it. */
  ghost predicate Did(p: Parsed<Cmd<Span>>, r: Outcome, before: seq<Node>, ns: seq<Node>, s: nat) {
    match p
    case Panic(why) => r == Died(why)
    case Ok(tree, next) =>
      s == next && r.Root? && r.node + 1 == |ns| && before <= ns && Ordered(ns) && Tree(ns, r.node) == tree
  }

  class Shell {
    var text: string
    var s: nat
    var nodes: seq<Node>

    ghost predicate Valid()
      reads this`text, this`s
    {
      Line(text) && s < |text|
    }

    constructor (line: string)
      requires Line(line)
      ensures Valid() && text == line && s == 0 && nodes == []
    {
      text, s, nodes := line, 0, [];
    }

    method Skip(p: nat) returns (q: nat)
      requires p < |text|
      ensures q == SkipBlank(text, p)
    {
      q := p;
      while q < |text| - 1 && Blank(text[q])
        invariant p <= q < |text| && SkipBlank(text, q) == SkipBlank(text, p)
      {
        q := q + 1;
      }
    }

    method GetToken() returns (tok: char, q: nat, eq: nat)
      requires Valid()
      modifies this`s
      ensures Valid() && Lex(text, old(s)) == Token(tok, q, eq, s) && old(s) <= s
      ensures SkipBlank(text, old(s)) == old(s) && text[old(s)] != NUL ==> old(s) < s
    {
      q := Skip(s);
      tok, eq := text[q], q;
      if text[q] == NUL {
      } else if text[q] == '>' {
        eq := q + 1;
        if text[eq] == '>' {
          tok, eq := '+', eq + 1;
        }
      } else if Symbol(text[q]) {
        eq := q + 1;
      } else {
        tok := 'a';
        while eq < |text| - 1 && !Blank(text[eq]) && !Symbol(text[eq])
          invariant q <= eq < |text| && WordEnd(text, eq) == WordEnd(text, q)
        {
          eq := eq + 1;
        }
      }
      s := Skip(eq);
    }

    method Peek(toks: string) returns (found: bool)
      requires Valid()
      modifies this`s
      ensures Valid() && s == SkipBlank(text, old(s)) == SkipBlank(text, s)
                && found == (text[s] != NUL && text[s] in toks)
    {
      s := Skip(s);
      found := text[s] != NUL && text[s] in toks;
    }

    method Alloc(n: Node) returns (k: nat)
      modifies this`nodes
      ensures k == |old(nodes)| && nodes == old(nodes) + [n]
    {
      k := |nodes|;
      nodes := nodes + [n];
    }

    /** Stacks further redirections on the newest node, which carries those in rs already. */
    method ParseRedirs(cmd: nat, ghost base: seq<Node>, ghost rs: seq<Redirection>) returns (r: Outcome)
      requires Valid() && base != [] && nodes == base + Links(|base| - 1, rs) && cmd + 1 == |nodes|
      modifies this`s, this`nodes
      ensures Valid()
      ensures match Redirs(text, old(s), rs)
        case Panic(why) => r == Died(why)
        case Ok(all, next) => s == next && nodes == base + Links(|base| - 1, all) && r == Root(|nodes| - 1)
    {
      hide Line, Lex, SkipBlank, Links, Redirected;
      var node := cmd;
      ghost var all := rs;
      var more := Peek("<>");
      while more
        invariant Valid() && nodes == base + Links(|base| - 1, all) && node + 1 == |nodes|
        invariant s == SkipBlank(text, s) && more == (text[s] == '<' || text[s] == '>')
        invariant Redirs(text, s, all) == Redirs(text, old(s), rs)
        decreases |text| - s
      {
        var tok, _, _ := GetToken();
        var kind, q, eq := GetToken();
        if kind != 'a' { return Died("missing file for redirection"); }
        var next := Redirected(tok, Span(q, eq));
        node := Alloc(RedirNode(node, next.file, next.mode, next.fd));
        LinksSnoc(base, all, next);
        all := all + [next];
        more := Peek("<>");
      }
      return Root(node);
    }

    method ParseLine() returns (r: Outcome)
      requires Valid() && Ordered(nodes)
      modifies this`s, this`nodes
      ensures Valid() && Did(ShellGrammar.ParseLine(text, old(s)), r, old(nodes), nodes, s)
      decreases |text| - s, 4
    {
      hide Line, Lex, SkipBlank, Tree, Ordered, ShellGrammar.ParsePipe, Blank;
      r := ParsePipe();
      if r.Died? { return; }
      var more := Peek("&");
      while more
        invariant Valid() && r.Root? && r.node + 1 == |nodes| && old(nodes) <= nodes && Ordered(nodes) && s >= old(s)
        invariant s == SkipBlank(text, s) && more == (text[s] == '&')
        invariant ShellGrammar.ParseLine(text, old(s)) == ParseTail(text, s, Tree(nodes, r.node))
        decreases |text| - s
      {
        var _, _, _ := GetToken();
        r := AllocBack(r.node);
        more := Peek("&");
      }
      var semi := Peek(";");
      if semi {
        var _, _, _ := GetToken();
        var left := r.node;
        ghost var before := nodes;
        r := ParseLine();
        if r.Root? {
          TreeStays(before, nodes, left);
          r := AllocList(left, r.node);
        }
      }
    }

    method AllocBack(cmd: nat) returns (r: Outcome)
      requires Ordered(nodes) && cmd < |nodes|
      modifies this`nodes
      ensures r.Root? && r.node + 1 == |nodes| && old(nodes) <= nodes && Ordered(nodes)
      ensures nodes == old(nodes) + [BackNode(cmd)] && Tree(nodes, r.node) == Back(old(Tree(nodes, cmd)))
    {
      var k := Alloc(BackNode(cmd));
      TreeStays(old(nodes), nodes, cmd);
      r := Root(k);
    }

    method AllocList(left: nat, right: nat) returns (r: Outcome)
      requires Ordered(nodes) && left < |nodes| && right < |nodes|
      modifies this`nodes
      ensures r.Root? && r.node + 1 == |nodes| && old(nodes) <= nodes && Ordered(nodes)
      ensures nodes == old(nodes) + [ListNode(left, right)]
      ensures Tree(nodes, r.node) == List(old(Tree(nodes, left)), old(Tree(nodes, right)))
    {
      var k := Alloc(ListNode(left, right));
      TreeStays(old(nodes), nodes, left);
      TreeStays(old(nodes), nodes, right);
      r := Root(k);
    }

    method AllocPipe(left: nat, right: nat) returns (r: Outcome)
      requires Ordered(nodes) && left < |nodes| && right < |nodes|
      modifies this`nodes
      ensures r.Root? && r.node + 1 == |nodes| && old(nodes) <= nodes && Ordered(nodes)
      ensures nodes == old(nodes) + [PipeNode(left, right)]
      ensures Tree(nodes, r.node) == Pipe(old(Tree(nodes, left)), old(Tree(nodes, right)))
    {
      var k := Alloc(PipeNode(left, right));
      TreeStays(old(nodes), nodes, left);
      TreeStays(old(nodes), nodes, right);
      r := Root(k);
    }

    method ParsePipe() returns (r: Outcome)
      requires Valid() && Ordered(nodes)
      modifies this`s, this`nodes
      ensures Valid() && Did(ShellGrammar.ParsePipe(text, old(s)), r, old(nodes), nodes, s)
      decreases |text| - s, 3
    {
      hide Line, Lex, SkipBlank, Tree, Ordered;
      r := ParseExec();
      if r.Died? { return; }
      var bar := Peek("|");
      if bar {
        var _, _, _ := GetToken();
        var left := r.node;
        ghost var before := nodes;
        r := ParsePipe();
        if r.Root? {
          TreeStays(before, nodes, left);
          r := AllocPipe(left, r.node);
        }
      }
    }

    /** The exec node is allocated first; redirections are stacked on it while its words are still filled in. */
    method ParseExec() returns (r: Outcome)
      requires Valid() && Ordered(nodes)
      modifies this`s, this`nodes
      ensures Valid() && Did(ShellGrammar.ParseExec(text, old(s)), r, old(nodes), nodes, s)
      decreases |text| - s, 2
    {
      hide Line, Lex, SkipBlank, Tree, Ordered, Wrap, Links, Redirs;
      var paren := Peek("(");
      if paren {
        r := ParseBlock();
        return;
      }
      ghost var start := s;
      var cmd := Alloc(ExecNode([]));
      ghost var base, rs := nodes, [];
      NoLinks(base);
      r := ParseRedirs(cmd, base, []);
      if r.Died? { return; }
      rs := RedirsOf(Redirs(text, start, []));
      var argv: seq<Span> := [];
      ghost var at := s;
      var arg := NextWord();
      while arg.Arg?
        invariant Valid() && start <= at < |text| && arg == NextArg(text, at) && (!arg.NotWord? ==> s == ArgNext(arg))
        invariant base == old(nodes) + [ExecNode(argv)] && cmd == |old(nodes)|
        invariant nodes == base + Links(cmd, rs) && r == Root(|nodes| - 1) && |argv| < MAXARGS
        invariant ShellGrammar.ParseExec(text, old(s)) == ParseArgs(text, at, argv, rs)
        decreases |text| - at
      {
        ghost var before := argv;
        argv := argv + [arg.word];
        if |argv| >= MAXARGS { return Died("too many args"); }
        ghost var here := s;
        r := AddWord(cmd, argv, r.node, old(nodes), before, rs);
        base := old(nodes) + [ExecNode(argv)];
        ArgsUnfold(text, at, before, rs);
        if r.Died? { return; }
        rs := RedirsOf(Redirs(text, here, rs));
        at := s;
        arg := NextWord();
      }
      if arg.NotWord? { return Died("syntax"); }
      LinksWrap(base, rs);
      ExecOrdered(old(nodes), argv);
    }

    /** Enters the words so far in the exec node, under the redirections stacked on it, and takes further ones. */
    method AddWord(cmd: nat, argv: seq<Span>, root: nat, ghost older: seq<Node>, ghost before: seq<Span>,
                   ghost rs: seq<Redirection>)
      returns (r: Outcome)
      requires Valid() && cmd == |older| && nodes == older + [ExecNode(before)] + Links(cmd, rs) && root + 1 == |nodes|
      modifies this`s, this`nodes
      ensures Valid()
      ensures match Redirs(text, old(s), rs)
        case Panic(why) => r == Died(why)
        case Ok(all, next) =>
          s == next && nodes == older + [ExecNode(argv)] + Links(cmd, all) && r == Root(|nodes| - 1)
    {
      hide Line, Lex, SkipBlank, Links, Redirs;
      nodes := nodes[cmd := ExecNode(argv)];
      ghost var base := older + [ExecNode(argv)];
      assert nodes == base + Links(cmd, rs);
      r := ParseRedirs(root, base, rs);
    }

    /** The next word for the argument loop, if there is one. */
    method NextWord() returns (arg: Arg)
      requires Valid()
      modifies this`s
      ensures Valid() && arg == NextArg(text, old(s)) && (!arg.NotWord? ==> s == ArgNext(arg))
    {
      hide Line, Lex, SkipBlank;
      var done := Peek("|)&;");
      if done { return NoArg(s); }
      var tok, q, eq := GetToken();
      if tok == NUL { return NoArg(s); }
      if tok != 'a' { return NotWord; }
      return Arg(Span(q, eq), s);
    }

    method ParseBlock() returns (r: Outcome)
      requires Valid() && Ordered(nodes)
      modifies this`s, this`nodes
      ensures Valid() && Did(ShellGrammar.ParseBlock(text, old(s)), r, old(nodes), nodes, s)
      decreases |text| - s, 1
    {
      hide Line, Lex, SkipBlank, Tree, Ordered, Wrap, Links, Redirs;
      var open := Peek("(");
      if !open { return Died("parseblock"); }
      var _, _, _ := GetToken();
      r := ParseLine();
      if r.Died? { return; }
      var closed := Peek(")");
      if !closed { return Died("syntax - missing )"); }
      var _, _, _ := GetToken();
      ghost var base, rs := nodes, RedirsOf(Redirs(text, s, []));
      NoLinks(base);
      r := ParseRedirs(r.node, base, []);
      if r.Root? { LinksWrap(base, rs); }
    }

    /** What the shell runs next: the tree the grammar gives for the line, each of whose words is now a
        C string of its own. */
    method ParseCmd() returns (r: Outcome)
      requires Valid() && s == 0 && nodes == []
      modifies this
      ensures match ShellGrammar.ParseCmd(old(text))
        case Panic(why) => r == Died(why)
        case Ok(tree, _) => r.Root? && r.node < |nodes| && Tree(nodes, r.node) == tree
                            && CText(text, tree) == Text(old(text), tree)
    {
      hide Line, Lex, Tree, Ordered, CText, Text;
      NoNodes();
      r := ParseLine();
      if r.Died? { return; }
      var _ := Peek("");
      if s != |text| - 1 { return Died("syntax"); }
      ghost var tree := Tree(nodes, r.node);
      ParsedIsClean(text, _ => true);
      NeatIsWithin(text, tree);
      TerminatedReads(text);
      NulTerminate(r.node);
    }

    method NulTerminate(k: nat)
      requires k < |nodes| && Ordered(nodes) && Within(Tree(nodes, k), |text|)
      modifies this`text
      ensures text == Terminated(old(text), Tree(nodes, k))
      decreases k
    {
      assert Ordered(nodes);
      match nodes[k]
      case ExecNode(argv) =>
        var i := 0;
        while i < |argv|
          invariant i <= |argv| && text == BlotWords(old(text), argv[..i])
        {
          assert argv[..i + 1][..i] == argv[..i];
          text := text[argv[i].eq := NUL];
          i := i + 1;
        }
        assert argv[..i] == argv;
      case RedirNode(cmd, file, _, _) =>
        NulTerminate(cmd);
        text := text[file.eq := NUL];
      case PipeNode(left, right) =>
        NulTerminate(left);
        NulTerminate(right);
      case ListNode(left, right) =>
        NulTerminate(left);
        NulTerminate(right);
      case BackNode(cmd) =>
        NulTerminate(cmd);
    }
  }

  lemma NoNodes()
    ensures Ordered([])
  {
  }

  function ArgNext(a: Arg): nat
    requires !a.NotWord?
  {
    if a.NoArg? then a.at else a.next
  }

  lemma ArgsUnfold(b: string, i: nat, argv: seq<Span>, rs: seq<Redirection>)
    requires Line(b) && i < |b| && NextArg(b, i).Arg? && |argv| + 1 < MAXARGS
    ensures var a := NextArg(b, i); var r := Redirs(b, a.next, rs);
      ParseArgs(b, i, argv, rs) == if r.Panic? then Panic(r.why) else ParseArgs(b, r.next, argv + [a.word], r.value)
  {
    hide NextArg, Redirs, Line, Wrap;
  }

  ghost function RedirsOf(p: Parsed<seq<Redirection>>): seq<Redirection> {
    match p case Ok(rs, _) => rs case Panic(_) => []
  }

  lemma NoLinks(base: seq<Node>)
    requires base != []
    ensures base + Links(|base| - 1, []) == base
  {
  }

  lemma ExecOrdered(ns: seq<Node>, argv: seq<Span>)
    requires Ordered(ns)
    ensures Ordered(ns + [ExecNode(argv)]) && Tree(ns + [ExecNode(argv)], |ns|) == Exec(argv)
  {
  }
}
