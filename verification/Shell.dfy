/** The parser of the shell, src/sh.c: tokens and the recursive-descent grammar, over a line that ends at |s|. */
module ShellGrammar {

  const MAXARGS := 10

  predicate IsSpace(c: char) {
    c == ' ' || c == '\t' || c == '\r' || c == '\n' || c == '\U{0B}'
  }

  predicate IsSymbol(c: char) {
    c == '<' || c == '|' || c == '>' || c == '&' || c == ';' || c == '(' || c == ')'
  }

  predicate IsWordChar(c: char) {
    c != '\0' && !IsSpace(c) && !IsSymbol(c)
  }

  /** A word of the line: the characters from lo up to hi. */
  datatype Span = Span(lo: nat, hi: nat)

  /** A parsed command.  Redirections into a file do not record whether they were written > or >>. */
  datatype Tree<W> =
    | Exec(words: seq<W>)
    | Redir(cmd: Tree<W>, file: W, out: bool)
    | Pipe(left: Tree<W>, right: Tree<W>)
    | List(left: Tree<W>, right: Tree<W>)
    | Back(cmd: Tree<W>)

  /** What the parser makes, with the words as places in the line; and what that says, with the words themselves. */
  type Parsed = Tree<Span>
  type Cmd = Tree<string>

  datatype Result = Ok(t: Parsed, i: nat) | Panic

  /** A C string has no NUL before its end. */
  predicate NoNul(s: string) {
    forall k | 0 <= k < |s| :: s[k] != '\0'
  }

  // ---- tokens -------------------------------------------------------------------------------------

  function Skip(s: string, i: nat): (j: nat)
    requires i <= |s|
    ensures i <= j <= |s| && (j < |s| ==> !IsSpace(s[j])) && forall k | i <= k < j :: IsSpace(s[k])
    decreases |s| - i
  {
    if i < |s| && IsSpace(s[i]) then Skip(s, i + 1) else i
  }

  function WordEnd(s: string, i: nat): (j: nat)
    requires i <= |s|
    ensures i <= j <= |s| && (j < |s| ==> !IsWordChar(s[j])) && forall k | i <= k < j :: IsWordChar(s[k])
    decreases |s| - i
  {
    if i < |s| && IsWordChar(s[i]) then WordEnd(s, i + 1) else i
  }

  /** The next token: what it is ('a' for a word, '+' for >>, NUL at the end), where it lies, and where the next one
      starts. */
  datatype Token = Token(kind: char, q: nat, eq: nat, next: nat)

  function TokenAt(s: string, q: nat): (Token)
    requires q <= |s|
  {
    if q == |s| then Token('\0', q, q, q)
    else if s[q] == '>' then
      if q + 1 < |s|
        && s[q + 1] == '>' then Token('+', q, q + 2, Skip(s, q + 2)) else Token('>', q, q + 1, Skip(s, q + 1))
    else if IsSymbol(s[q]) then Token(s[q], q, q + 1, Skip(s, q + 1))
    else Token('a', q, WordEnd(s, q), Skip(s, WordEnd(s, q)))
  }

  function GetToken(s: string, i: nat): (t: Token)
    requires i <= |s| && NoNul(s)
    ensures i <= t.q <= t.eq <= t.next <= |s|
    ensures t.kind == '\0' <==> t.q == |s|
    ensures t.kind != '\0' ==> t.q < t.eq
    ensures t.kind == 'a' ==> WordSpan(s, Span(t.q, t.eq))
    ensures t.q < |s| && IsSymbol(s[t.q]) && s[t.q] != '>' ==> t.kind == s[t.q] && t.eq == t.q + 1
    ensures t.q < |s| && s[t.q] == '>' ==>
              if t.q + 1 < |s| && s[t.q + 1] == '>' then t.kind == '+' && t.eq == t.q + 2
              else t.kind == '>' && t.eq == t.q + 1
    ensures t.q < |s| && !IsSymbol(s[t.q]) ==> t.kind == 'a'
    ensures (forall k | i <= k < t.q || t.eq <= k < t.next :: IsSpace(s[k]))
    ensures (t.q < |s| ==> !IsSpace(s[t.q])) && (t.next < |s| ==> !IsSpace(s[t.next]))
  {
    TokenAt(s, Skip(s, i))
  }

  /** A whole word: word characters only, and it does not go on. */
  predicate WordSpan(s: string, w: Span) {
    && w.lo < w.hi <= |s| && (forall k | w.lo <= k < w.hi :: IsWordChar(s[k])) && (w.hi < |s| ==> !IsWordChar(s[w.hi]))
  }

  /** The next character that is not blank, or NUL at the end; peek compares it with the ones it is asked for. */
  function Peek(s: string, i: nat): char
    requires i <= |s|
  {
    var j := Skip(s, i);
    if j < |s| then s[j] else '\0'
  }

  predicate IsAngle(c: char) {
    c == '<' || c == '>'
  }

  /** What ends the words of a command. */
  predicate IsStop(c: char) {
    c == '|' || c == ')' || c == '&' || c == ';'
  }

  // ---- the grammar --------------------------------------------------------------------------------

  function ParseRedirs(s: string, t: Parsed, i: nat): (r: Result)
    requires i <= |s| && NoNul(s)
    ensures r.Ok? ==> i <= r.i <= |s|
    decreases |s| - i
  {
    var j := Skip(s, i);
    if !IsAngle(Peek(s, i)) then Ok(t, j)
    else
      var tok := GetToken(s, j);
      var file := GetToken(s, tok.next);
      if file.kind != 'a' then Panic
      else ParseRedirs(s, Redir(t, Span(file.q, file.eq), tok.kind != '<'), file.next)
  }

  /** The exec node under the redirections gets its words. */
  function WithWords<W>(t: Tree<W>, words: seq<W>): Tree<W> {
    match t
    case Redir(c, f, out) => Redir(WithWords(c, words), f, out)
    case Exec(_) => Exec(words)
    case _ => t
  }

  function ParseWords(s: string, t: Parsed, words: seq<Span>, i: nat): (r: Result)
    requires i <= |s| && NoNul(s)
    ensures r.Ok? ==> i <= r.i <= |s|
    decreases |s| - i
  {
    var j := Skip(s, i);
    if IsStop(Peek(s, i)) then Ok(WithWords(t, words), j)
    else
      var tok := GetToken(s, j);
      if tok.kind == '\0' then Ok(WithWords(t, words), tok.next)
      else if tok.kind != 'a' then Panic
      else if |words| + 1 >= MAXARGS then Panic
      else
        match ParseRedirs(s, t, tok.next)
        case Panic => Panic
        case Ok(t2, k) => ParseWords(s, t2, words + [Span(tok.q, tok.eq)], k)
  }

  function ParseExec(s: string, i: nat): (r: Result)
    requires i <= |s| && NoNul(s)
    ensures r.Ok? ==> i <= r.i <= |s|
    decreases |s| - i, 0
  {
    if Peek(s, i) == '(' then ParseBlock(s, Skip(s, i))
    else
      match ParseRedirs(s, Exec([]), Skip(s, i))
      case Panic => Panic
      case Ok(t, j) => ParseWords(s, t, [], j)
  }

  function ParseBlock(s: string, i: nat): (r: Result)
    requires i < |s| && NoNul(s) && s[i] == '('
    ensures r.Ok? ==> i <= r.i <= |s|
    decreases |s| - i, 0, 0
  {
    match ParseLine(s, GetToken(s, i).next)
    case Panic => Panic
    case Ok(t, j) => if Peek(s, j) == ')' then ParseRedirs(s, t, GetToken(s, j).next) else Panic
  }

  function ParsePipe(s: string, i: nat): (r: Result)
    requires i <= |s| && NoNul(s)
    ensures r.Ok? ==> i <= r.i <= |s|
    decreases |s| - i, 1
  {
    match ParseExec(s, i)
    case Panic => Panic
    case Ok(t, j) =>
      if Peek(s, j) == '|' then
        match ParsePipe(s, GetToken(s, j).next)
        case Panic => Panic
        case Ok(u, k) => Ok(Pipe(t, u), k)
      else Ok(t, Skip(s, j))
  }

  function ParseAmps(s: string, t: Parsed, i: nat): (r: Result)
    requires i <= |s| && NoNul(s)
    ensures r.Ok? && i <= r.i <= |s|
    decreases |s| - i
  {
    if Peek(s, i) == '&' then ParseAmps(s, Back(t), GetToken(s, i).next) else Ok(t, Skip(s, i))
  }

  function ParseLine(s: string, i: nat): (r: Result)
    requires i <= |s| && NoNul(s)
    ensures r.Ok? ==> i <= r.i <= |s|
    decreases |s| - i, 2
  {
    match ParsePipe(s, i)
    case Panic => Panic
    case Ok(t, j) =>
      var a := ParseAmps(s, t, j);
      if Peek(s, a.i) == ';' then
        match ParseLine(s, GetToken(s, a.i).next)
        case Panic => Panic
        case Ok(u, k) => Ok(List(a.t, u), k)
      else Ok(a.t, Skip(s, a.i))
  }

  /** parsecmd, up to nulterminate: the whole line must be used up. */
  function ParseCmd(s: string): (r: Result)
    requires NoNul(s)
  {
    match ParseLine(s, 0)
    case Panic => Panic
    case Ok(t, j) => if Skip(s, j) == |s| then Ok(t, |s|) else Panic
  }
}

/** What every parse has: whole words, at most nine of them to a command. */
module ShellTrees {
  import opened ShellGrammar

  ghost predicate Spans(s: string, words: seq<Span>) {
    |words| < MAXARGS && forall k | 0 <= k < |words| :: WordSpan(s, words[k])
  }

  ghost predicate Good(s: string, t: Parsed) {
    match t
    case Exec(words) => Spans(s, words)
    case Redir(c, f, _) => Good(s, c) && WordSpan(s, f)
    case Pipe(l, r) => Good(s, l) && Good(s, r)
    case List(l, r) => Good(s, l) && Good(s, r)
    case Back(c) => Good(s, c)
  }

  lemma {:induction false} RedirsGood(s: string, t: Parsed, i: nat)
    requires i <= |s| && NoNul(s) && Good(s, t) && ParseRedirs(s, t, i).Ok?
    ensures Good(s, ParseRedirs(s, t, i).t)
    decreases |s| - i
  {
    if IsAngle(Peek(s, i)) {
      var tok := GetToken(s, Skip(s, i));
      var file := GetToken(s, tok.next);
      RedirsGood(s, Redir(t, Span(file.q, file.eq), tok.kind != '<'), file.next);
    }
  }

  lemma {:induction false} WithWordsGood(s: string, t: Parsed, words: seq<Span>)
    requires Good(s, t) && Spans(s, words)
    ensures Good(s, WithWords(t, words))
  {
    if t.Redir? {
      WithWordsGood(s, t.cmd, words);
    }
  }

  lemma {:induction false} WordsGood(s: string, t: Parsed, words: seq<Span>, i: nat)
    requires i <= |s| && NoNul(s) && Good(s, t) && Spans(s, words) && ParseWords(s, t, words, i).Ok?
    ensures Good(s, ParseWords(s, t, words, i).t)
    decreases |s| - i
  {
    WithWordsGood(s, t, words);
    var tok := GetToken(s, Skip(s, i));
    if !IsStop(Peek(s, i)) && tok.kind != '\0' {
      RedirsGood(s, t, tok.next);
      var r := ParseRedirs(s, t, tok.next);
      WordsGood(s, r.t, words + [Span(tok.q, tok.eq)], r.i);
    }
  }

  lemma {:induction false} AmpsGood(s: string, t: Parsed, i: nat)
    requires i <= |s| && NoNul(s) && Good(s, t)
    ensures Good(s, ParseAmps(s, t, i).t)
    decreases |s| - i
  {
    if Peek(s, i) == '&' {
      AmpsGood(s, Back(t), GetToken(s, i).next);
    }
  }

  lemma {:induction false} ExecGood(s: string, i: nat)
    requires i <= |s| && NoNul(s) && ParseExec(s, i).Ok?
    ensures Good(s, ParseExec(s, i).t)
    decreases |s| - i, 0
  {
    if Peek(s, i) == '(' {
      var q := Skip(s, i);
      LineGood(s, GetToken(s, q).next);
      var r := ParseLine(s, GetToken(s, q).next);
      RedirsGood(s, r.t, GetToken(s, r.i).next);
    } else {
      RedirsGood(s, Exec([]), Skip(s, i));
      var r := ParseRedirs(s, Exec([]), Skip(s, i));
      WordsGood(s, r.t, [], r.i);
    }
  }

  lemma {:induction false} PipeGood(s: string, i: nat)
    requires i <= |s| && NoNul(s) && ParsePipe(s, i).Ok?
    ensures Good(s, ParsePipe(s, i).t)
    decreases |s| - i, 1
  {
    ExecGood(s, i);
    var r := ParseExec(s, i);
    if Peek(s, r.i) == '|' {
      PipeGood(s, GetToken(s, r.i).next);
    }
  }

  lemma {:induction false} LineGood(s: string, i: nat)
    requires i <= |s| && NoNul(s) && ParseLine(s, i).Ok?
    ensures Good(s, ParseLine(s, i).t)
    decreases |s| - i, 2
  {
    PipeGood(s, i);
    var r := ParsePipe(s, i);
    AmpsGood(s, r.t, r.i);
    var a := ParseAmps(s, r.t, r.i);
    if Peek(s, a.i) == ';' {
      LineGood(s, GetToken(s, a.i).next);
    }
  }

  // ---- nulterminate -------------------------------------------------------------------------------

  /** Word w reads back from the buffer as a C string. */
  ghost predicate ReadsBack(s: string, buf: seq<char>, w: Span) {
    && w.lo < w.hi < |buf| && w.hi <= |s| && buf[w.lo..w.hi] == s[w.lo..w.hi] && buf[w.hi] == '\0'
    && forall k | w.lo <= k < w.hi :: buf[k] != '\0'
  }

  ghost predicate AllReadBack(s: string, buf: seq<char>, t: Parsed) {
    match t
    case Exec(words) => forall k | 0 <= k < |words| :: ReadsBack(s, buf, words[k])
    case Redir(c, f, _) => AllReadBack(s, buf, c) && ReadsBack(s, buf, f)
    case Pipe(l, r) => AllReadBack(s, buf, l) && AllReadBack(s, buf, r)
    case List(l, r) => AllReadBack(s, buf, l) && AllReadBack(s, buf, r)
    case Back(c) => AllReadBack(s, buf, c)
  }

  /** The buffer differs from the line only by NULs in places where no word is. */
  ghost predicate Cut(s: string, buf: seq<char>) {
    && |buf| == |s| + 1 && buf[|s|] == '\0'
    && forall k | 0 <= k < |s| :: buf[k] == s[k] || (buf[k] == '\0' && !IsWordChar(s[k]))
  }

  lemma {:induction false} StillReads(s: string, buf1: seq<char>, buf2: seq<char>, t: Parsed)
    requires Cut(s, buf2) && |buf1| == |buf2| && Good(s, t) && AllReadBack(s, buf1, t)
    requires forall k | 0 <= k < |buf1| && buf1[k] == '\0' :: buf2[k] == '\0'
    ensures AllReadBack(s, buf2, t)
  {
    match t
    case Exec(words) =>
      forall k | 0 <= k < |words| ensures ReadsBack(s, buf2, words[k]) {
        CutReads(s, buf2, words[k]);
      }
    case Redir(c, f, _) => StillReads(s, buf1, buf2, c); CutReads(s, buf2, f);
    case Pipe(l, r) => StillReads(s, buf1, buf2, l); StillReads(s, buf1, buf2, r);
    case List(l, r) => StillReads(s, buf1, buf2, l); StillReads(s, buf1, buf2, r);
    case Back(c) => StillReads(s, buf1, buf2, c);
  }

  /** A whole word whose end is cut off reads back. */
  lemma CutReads(s: string, buf: seq<char>, w: Span)
    requires Cut(s, buf) && WordSpan(s, w) && buf[w.hi] == '\0'
    ensures ReadsBack(s, buf, w)
  {
  }

  /** nulterminate, in place. */
  method Nulterminate(s: string, buf: array<char>, t: Parsed)
    requires Good(s, t) && Cut(s, buf[..])
    modifies buf
    ensures Cut(s, buf[..]) && AllReadBack(s, buf[..], t)
    ensures forall k | 0 <= k < buf.Length && old(buf[k]) == '\0' :: buf[k] == '\0'
    decreases t
  {
    match t
    case Exec(words) =>
      var i := 0;
      while i < |words|
        invariant i <= |words| && Cut(s, buf[..])
        invariant forall k | 0 <= k < i :: ReadsBack(s, buf[..], words[k])
        invariant forall k | 0 <= k < buf.Length && old(buf[k]) == '\0' :: buf[k] == '\0'
      {
        ghost var before := buf[..];
        assert WordSpan(s, words[i]);
        buf[words[i].hi] := '\0';
        forall k | 0 <= k <= i ensures ReadsBack(s, buf[..], words[k]) {
          assert WordSpan(s, words[k]);
          CutReads(s, buf[..], words[k]);
        }
        i := i + 1;
      }
    case Redir(c, f, _) =>
      Nulterminate(s, buf, c);
      ghost var before := buf[..];
      buf[f.hi] := '\0';
      StillReads(s, before, buf[..], c);
      CutReads(s, buf[..], f);
    case Pipe(l, r) =>
      Nulterminate(s, buf, l);
      ghost var before := buf[..];
      Nulterminate(s, buf, r);
      StillReads(s, before, buf[..], l);
    case List(l, r) =>
      Nulterminate(s, buf, l);
      ghost var before := buf[..];
      Nulterminate(s, buf, r);
      StillReads(s, before, buf[..], l);
    case Back(c) => Nulterminate(s, buf, c);
  }
}

/** The parser as the shell runs it: a cursor into the line, and loops. */
module ShellParser {
  import opened ShellGrammar
  import opened ShellTrees
  import ShellSyntax

  method SkipBlanks(s: string, i: nat) returns (j: nat)
    requires i <= |s|
    ensures j == Skip(s, i)
  {
    j := i;
    while j < |s| && IsSpace(s[j])
      invariant i <= j <= |s| && Skip(s, j) == Skip(s, i)
    {
      j := j + 1;
    }
  }

  method Gettoken(s: string, i: nat) returns (tok: Token)
    requires i <= |s| && NoNul(s)
    ensures tok == GetToken(s, i)
  {
    var q := SkipBlanks(s, i);
    var eq := q;
    var kind := 'a';
    if q == |s| {
      kind := '\0';
    } else if s[q] == '>' {
      kind, eq := '>', q + 1;
      if eq < |s| && s[eq] == '>' {
        kind, eq := '+', eq + 1;
      }
    } else if IsSymbol(s[q]) {
      kind, eq := s[q], q + 1;
    } else {
      while eq < |s| && IsWordChar(s[eq])
        invariant q <= eq <= |s| && WordEnd(s, eq) == WordEnd(s, q)
      {
        eq := eq + 1;
      }
    }
    var next := SkipBlanks(s, eq);
    tok := Token(kind, q, eq, next);
  }

  /** peek: the cursor moves over blanks, and the next character is returned. */
  method PeekAt(s: string, i: nat) returns (j: nat, c: char)
    requires i <= |s|
    ensures j == Skip(s, i) && c == Peek(s, i)
  {
    j := SkipBlanks(s, i);
    c := if j < |s| then s[j] else '\0';
  }

  method Parseredirs(s: string, t: Parsed, i: nat) returns (r: Result)
    requires i <= |s| && NoNul(s)
    ensures r == ParseRedirs(s, t, i)
  {
    var cmd, at := t, i;
    while true
      invariant at <= |s| && ParseRedirs(s, cmd, at) == ParseRedirs(s, t, i)
      decreases |s| - at
    {
      var j, c := PeekAt(s, at);
      if !IsAngle(c) {
        return Ok(cmd, j);
      }
      var tok := Gettoken(s, j);
      var file := Gettoken(s, tok.next);
      if file.kind != 'a' {
        return Panic;
      }
      cmd, at := Redir(cmd, Span(file.q, file.eq), tok.kind != '<'), file.next;
    }
  }

  method Parsewords(s: string, t: Parsed, i: nat) returns (r: Result)
    requires i <= |s| && NoNul(s)
    ensures r == ParseWords(s, t, [], i)
  {
    var ret, at := t, i;
    var argv: seq<Span> := [];
    while true
      invariant at <= |s| && ParseWords(s, ret, argv, at) == ParseWords(s, t, [], i)
      decreases |s| - at
    {
      var j, c := PeekAt(s, at);
      if IsStop(c) {
        return Ok(WithWords(ret, argv), j);
      }
      var tok := Gettoken(s, j);
      if tok.kind == '\0' {
        return Ok(WithWords(ret, argv), tok.next);
      }
      if tok.kind != 'a' || |argv| + 1 >= MAXARGS {
        return Panic;
      }
      var p := Parseredirs(s, ret, tok.next);
      if p.Panic? {
        return Panic;
      }
      ret, argv, at := p.t, argv + [Span(tok.q, tok.eq)], p.i;
    }
  }

  method Parseexec(s: string, i: nat) returns (r: Result)
    requires i <= |s| && NoNul(s)
    ensures r == ParseExec(s, i)
    decreases |s| - i, 0
  {
    var j, c := PeekAt(s, i);
    if c == '(' {
      r := Parseblock(s, j);
      return;
    }
    var p := Parseredirs(s, Exec([]), j);
    if p.Panic? {
      return Panic;
    }
    r := Parsewords(s, p.t, p.i);
  }

  method Parseblock(s: string, i: nat) returns (r: Result)
    requires i < |s| && NoNul(s) && s[i] == '('
    ensures r == ParseBlock(s, i)
    decreases |s| - i, 0, 0
  {
    var tok := Gettoken(s, i);
    var p := Parseline(s, tok.next);
    if p.Panic? {
      return Panic;
    }
    var j, c := PeekAt(s, p.i);
    if c != ')' {
      return Panic;
    }
    tok := Gettoken(s, p.i);
    r := Parseredirs(s, p.t, tok.next);
  }

  method Parsepipe(s: string, i: nat) returns (r: Result)
    requires i <= |s| && NoNul(s)
    ensures r == ParsePipe(s, i)
    decreases |s| - i, 1
  {
    var p := Parseexec(s, i);
    if p.Panic? {
      return Panic;
    }
    var j, c := PeekAt(s, p.i);
    if c != '|' {
      return Ok(p.t, j);
    }
    var tok := Gettoken(s, p.i);
    var q := Parsepipe(s, tok.next);
    r := if q.Panic? then Panic else Ok(Pipe(p.t, q.t), q.i);
  }

  method Parseline(s: string, i: nat) returns (r: Result)
    requires i <= |s| && NoNul(s)
    ensures r == ParseLine(s, i)
    decreases |s| - i, 2
  {
    var p := Parsepipe(s, i);
    if p.Panic? {
      return Panic;
    }
    var cmd, at := p.t, p.i;
    var j, c := PeekAt(s, at);
    while c == '&'
      invariant at <= |s| && j == Skip(s, at) && c == Peek(s, at) && i <= at
      invariant ParseAmps(s, cmd, at) == ParseAmps(s, p.t, p.i)
      decreases |s| - at
    {
      var tok := Gettoken(s, at);
      cmd, at := Back(cmd), tok.next;
      j, c := PeekAt(s, at);
    }
    j, c := PeekAt(s, j);
    if c != ';' {
      return Ok(cmd, j);
    }
    var tok := Gettoken(s, j);
    var q := Parseline(s, tok.next);
    r := if q.Panic? then Panic else Ok(List(cmd, q.t), q.i);
  }

  /** parsecmd: the command in the buffer, with its words cut off in place.  Each word then reads back from the buffer
      as a C string. */
  method Parsecmd(buf: array<char>) returns (r: Result)
    requires buf.Length > 0 && buf[buf.Length - 1] == '\0' && NoNul(buf[..buf.Length - 1])
    modifies buf
    ensures r == ParseCmd(old(buf[..buf.Length - 1]))
    ensures ShellSyntax.Decides(old(buf[..buf.Length - 1]), r)
    ensures r.Panic? ==> buf[..] == old(buf[..])
    ensures r.Ok? ==> AllReadBack(old(buf[..buf.Length - 1]), buf[..], r.t)
  {
    hide ShellSyntax.Says, ShellSyntax.Text, ParseLine;
    var s := buf[..buf.Length - 1];
    forall t ensures ShellSyntax.Says(s, t) <==> ParseCmd(s).Ok? && ShellSyntax.Text(s, ParseCmd(s).t) == t {
      ShellSyntax.ParserExact(s, t);
    }
    r := Parseline(s, 0);
    if r.Panic? {
      return;
    }
    var j, _ := PeekAt(s, r.i);
    if j != |s| {
      return Panic;
    }
    LineGood(s, 0);
    Nulterminate(s, buf, r.t);
    r := Ok(r.t, |s|);
  }
}
