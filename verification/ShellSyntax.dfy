/** What lines the shell accepts and what they mean, told by a grammar instead of a parser: every way to write a
    command, with any blanks between its parts. */
module ShellSyntax {
  import opened ShellGrammar
  import opened ShellTrees

  // ---- what a parse says ----------------------------------------------------------------------------

  function Word(s: string, w: Span): string {
    if w.lo <= w.hi <= |s| then s[w.lo..w.hi] else ""
  }

  function Words(s: string, ws: seq<Span>): (r: seq<string>)
    ensures |r| == |ws| && forall k | 0 <= k < |ws| :: r[k] == Word(s, ws[k])
  {
    if |ws| == 0 then [] else Words(s, ws[..|ws| - 1]) + [Word(s, ws[|ws| - 1])]
  }

  function Text(s: string, t: Parsed): Cmd {
    match t
    case Exec(ws) => Exec(Words(s, ws))
    case Redir(c, f, out) => Redir(Text(s, c), Word(s, f), out)
    case Pipe(l, r) => Pipe(Text(s, l), Text(s, r))
    case List(l, r) => List(Text(s, l), Text(s, r))
    case Back(c) => Back(Text(s, c))
  }

  // ---- the grammar ----------------------------------------------------------------------------------

  /** A word that is one token. */
  predicate WordOk(w: string) {
    |w| > 0 && forall k | 0 <= k < |w| :: IsWordChar(w[k])
  }

  predicate Blank(b: string) {
    forall k | 0 <= k < |b| :: IsSpace(b[k])
  }

  /** A part of a command: a word with the blanks before it, or a redirection with the blanks before its symbol and
      before its file. */
  datatype Item = Arg(gap: string, word: string) | Dir(gap: string, sym: string, mid: string, file: string)

  predicate IsSym(sym: string) {
    sym == "<" || sym == ">" || sym == ">>"
  }

  predicate ItemOk(x: Item) {
    match x
    case Arg(gap, word) => Blank(gap) && WordOk(word)
    case Dir(gap, sym, mid, file) => Blank(gap) && IsSym(sym) && Blank(mid) && WordOk(file)
  }

  function ItemText(x: Item): string {
    match x
    case Arg(gap, word) => gap + word
    case Dir(gap, sym, mid, file) => gap + (sym + (mid + file))
  }

  function ItemsText(xs: seq<Item>): string {
    if |xs| == 0 then "" else ItemText(xs[0]) + ItemsText(xs[1..])
  }

  /** There is a blank before a word that comes after another; `after` says that the first item comes after one. */
  predicate ItemsOk(xs: seq<Item>, after: bool) {
    |xs| == 0 || (ItemOk(xs[0]) && (after && xs[0].Arg? ==> |xs[0].gap| > 0) && ItemsOk(xs[1..], true))
  }

  function Args(xs: seq<Item>): seq<string> {
    if |xs| == 0 then [] else (if xs[0].Arg? then [xs[0].word] else []) + Args(xs[1..])
  }

  /** The command with the redirections around it, the first one innermost. */
  function Under(c: Cmd, xs: seq<Item>): Cmd
    decreases |xs|
  {
    if |xs| == 0 then c else Under(if xs[0].Dir? then Redir(c, xs[0].file, xs[0].sym != "<") else c, xs[1..])
  }

  /** A command as it is written.  The gaps are the blanks before a symbol. */
  datatype Source =
    | Simple(items: seq<Item>)
    | Block(gap: string, line: Source, close: string, redirs: seq<Item>)
    | Piped(left: Source, gap: string, right: Source)
    | Amp(cmd: Source, gap: string)
    | Seq(left: Source, gap: string, right: Source)

  function Level(x: Source): nat {
    match x
    case Simple(_) => 0
    case Block(_, _, _, _) => 0
    case Piped(_, _, _) => 1
    case Amp(_, _) => 2
    case Seq(_, _, _) => 3
  }

  predicate OnlyDirs(xs: seq<Item>) {
    forall k | 0 <= k < |xs| :: xs[k].Dir?
  }

  /** A command is words and redirections in any order, at most nine words, or a line in parentheses with redirections
      after it; a pipeline is commands joined by |, and a line is pipelines, each with any number of &s, joined by
      semicolons. */
  predicate Valid(x: Source) {
    match x
    case Simple(xs) => ItemsOk(xs, false) && |Args(xs)| < MAXARGS
    case Block(gap, line, close, rs) => Blank(gap) && Valid(line) && Blank(close) && OnlyDirs(rs) && ItemsOk(rs, false)
    case Piped(l, gap, r) => Valid(l) && Level(l) == 0 && Blank(gap) && Valid(r) && Level(r) <= 1
    case Amp(c, gap) => Valid(c) && Level(c) <= 2 && Blank(gap)
    case Seq(l, gap, r) => Valid(l) && Level(l) <= 2 && Blank(gap) && Valid(r)
  }

  function Show(x: Source): string {
    match x
    case Simple(xs) => ItemsText(xs)
    case Block(gap, line, close, rs) => (gap + "(") + (Show(line) + ((close + ")") + ItemsText(rs)))
    case Piped(l, gap, r) => Show(l) + ((gap + "|") + Show(r))
    case Amp(c, gap) => Show(c) + (gap + "&")
    case Seq(l, gap, r) => Show(l) + ((gap + ";") + Show(r))
  }

  function Mean(x: Source): Cmd {
    match x
    case Simple(xs) => Under(Exec(Args(xs)), xs)
    case Block(_, line, _, rs) => Under(Mean(line), rs)
    case Piped(l, _, r) => Pipe(Mean(l), Mean(r))
    case Amp(c, _) => Back(Mean(c))
    case Seq(l, _, r) => List(Mean(l), Mean(r))
  }

  /** The line says the command. */
  ghost predicate Says(s: string, t: Cmd) {
    exists x: Source, tail: string :: Valid(x) && Blank(tail) && s == Show(x) + tail && Mean(x) == t
  }

  // ---- places in a line -------------------------------------------------------------------------------

  /** p stands at i. */
  ghost predicate Occurs(s: string, i: nat, p: string) {
    i + |p| <= |s| && forall k {:trigger p[k]} | 0 <= k < |p| :: s[i + k] == p[k]
  }

  lemma OccursCat(s: string, i: nat, p: string, q: string)
    ensures Occurs(s, i, p + q) <==> Occurs(s, i, p) && Occurs(s, i + |p|, q)
  {
    if Occurs(s, i, p + q) {
      forall k | 0 <= k < |p| ensures s[i + k] == p[k] {
        assert (p + q)[k] == p[k];
      }
      forall k | 0 <= k < |q| ensures s[i + |p| + k] == q[k] {
        assert (p + q)[|p| + k] == q[k];
      }
    }
    if Occurs(s, i, p) && Occurs(s, i + |p|, q) {
      forall k | 0 <= k < |p + q| ensures s[i + k] == (p + q)[k] {
        assert k >= |p| ==> s[i + |p| + (k - |p|)] == q[k - |p|];
      }
    }
  }

  lemma OccursIn(s: string, i: nat, p: string)
    requires Occurs(s, i, p)
    ensures i + |p| <= |s| && s[i..i + |p|] == p
  {
  }

  lemma OccursSlice(s: string, i: nat, j: nat)
    requires i <= j <= |s|
    ensures Occurs(s, i, s[i..j])
  {
  }

  lemma SkipTwice(s: string, i: nat)
    requires i <= |s|
    ensures Skip(s, Skip(s, i)) == Skip(s, i)
  {
  }

  /** What a word may be followed by: a blank, a symbol or the end. */
  predicate Ended(s: string, i: nat) {
    i < |s| ==> !IsWordChar(s[i])
  }

  /** The end of a command's words and redirections, of a pipeline, and of a line. */
  ghost predicate AtStop(s: string, i: nat) {
    i <= |s| && (IsStop(Peek(s, i)) || Skip(s, i) == |s|)
  }

  ghost predicate AtPipeEnd(s: string, i: nat) {
    i <= |s| && (Skip(s, i) == |s| || Peek(s, i) == ')' || Peek(s, i) == '&' || Peek(s, i) == ';')
  }

  ghost predicate AtLineEnd(s: string, i: nat) {
    i <= |s| && (Skip(s, i) == |s| || Peek(s, i) == ')')
  }

  lemma StopFacts(s: string, i: nat)
    requires AtStop(s, i)
    ensures Ended(s, i) && !IsAngle(Peek(s, i)) && Peek(s, i) != '('
    ensures IsStop(Peek(s, i)) || Skip(s, i) == |s|
  {
  }

  lemma EndFacts(s: string, i: nat)
    requires i <= |s|
    ensures AtLineEnd(s, i) ==> AtPipeEnd(s, i) && Peek(s, i) != '&' && Peek(s, i) != ';'
    ensures AtPipeEnd(s, i) ==> AtStop(s, i) && Peek(s, i) != '|'
    ensures Skip(s, Skip(s, i)) == Skip(s, i) && Peek(s, Skip(s, i)) == Peek(s, i)
  {
  }

  /** Blanks are skipped, up to what is not one. */
  lemma GapSkipped(s: string, i: nat, gap: string)
    requires Occurs(s, i, gap) && Blank(gap) && (i + |gap| < |s| ==> !IsSpace(s[i + |gap|]))
    ensures Skip(s, i) == i + |gap|
  {
    forall k | i <= k < i + |gap| ensures IsSpace(s[k]) {
      assert s[i + (k - i)] == gap[k - i];
    }
  }

  lemma {:induction false} WordEndIs(s: string, i: nat, j: nat)
    requires i <= j <= |s| && (forall k | i <= k < j :: IsWordChar(s[k])) && (j < |s| ==> !IsWordChar(s[j]))
    ensures WordEnd(s, i) == j
    decreases j - i
  {
  }

  /** A word in the line. */
  lemma WordToken(s: string, i: nat, gap: string, w: string)
    requires NoNul(s) && Occurs(s, i, gap + w) && Blank(gap) && WordOk(w) && Ended(s, i + |gap| + |w|)
    ensures var q := i + |gap|;
            && q + |w| <= |s| && Skip(s, i) == q
            && GetToken(s, i) == Token('a', q, q + |w|, Skip(s, q + |w|)) && Word(s, Span(q, q + |w|)) == w
            && !IsAngle(Peek(s, i)) && !IsStop(Peek(s, i)) && Peek(s, i) != '('
  {
    OccursCat(s, i, gap, w);
    var q := i + |gap|;
    OccursIn(s, q, w);
    forall k | q <= k < q + |w| ensures IsWordChar(s[k]) {
      assert s[q + (k - q)] == w[k - q];
    }
    GapSkipped(s, i, gap);
    WordEndIs(s, q, q + |w|);
  }

  // ---- redirections -----------------------------------------------------------------------------------

  /** The symbol of a redirection. */
  lemma SymToken(s: string, i: nat, gap: string, sym: string)
    requires NoNul(s) && Occurs(s, i, gap + sym) && Blank(gap) && IsSym(sym)
    requires i + |gap| + |sym| < |s| && s[i + |gap| + |sym|] != '>'
    ensures var q := i + |gap|;
            && Skip(s, i) == q && IsAngle(Peek(s, i))
            && var t := GetToken(s, q); t.q == q && t.eq == q + |sym| && (t.kind != '<' <==> sym != "<")
                                        && t.next == Skip(s, q + |sym|)
  {
    OccursCat(s, i, gap, sym);
    var q := i + |gap|;
    assert s[q + 0] == sym[0] && (|sym| == 2 ==> s[q + 1] == sym[1]);
    GapSkipped(s, i, gap);
  }

  /** Blanks before a construct do not matter. */
  lemma RedirsSkip(s: string, t: Parsed, i: nat)
    requires NoNul(s) && i <= |s|
    ensures ParseRedirs(s, t, Skip(s, i)) == ParseRedirs(s, t, i)
  {
  }

  lemma TokenSkip(s: string, i: nat)
    requires NoNul(s) && i <= |s|
    ensures GetToken(s, Skip(s, i)) == GetToken(s, i)
  {
  }

  /** ParseRedirs when a redirection is there. */
  lemma RedirsUnfold(s: string, t: Parsed, i: nat)
    requires NoNul(s) && i <= |s| && IsAngle(Peek(s, i))
    ensures var tok := GetToken(s, Skip(s, i));
            var file := GetToken(s, tok.next);
            ParseRedirs(s, t, i) ==
              if file.kind == 'a' then ParseRedirs(s, Redir(t, Span(file.q, file.eq), tok.kind != '<'), file.next)
              else Panic
  {
  }

  /** No redirection is there. */
  lemma RedirsNone(s: string, t: Parsed, i: nat)
    requires NoNul(s) && i <= |s| && !IsAngle(Peek(s, i))
    ensures ParseRedirs(s, t, i) == Ok(t, Skip(s, i))
  {
  }

  lemma DirParts(s: string, i: nat, x: Item)
    requires x.Dir? && ItemOk(x) && Occurs(s, i, ItemText(x))
    ensures var e := i + |x.gap| + |x.sym|;
            && |ItemText(x)| == |x.gap| + |x.sym| + |x.mid| + |x.file| && i + |ItemText(x)| <= |s|
            && Occurs(s, i, x.gap + x.sym) && Occurs(s, e, x.mid + x.file) && e < |s| && s[e] != '>'
  {
    OccursCat(s, i, x.gap, x.sym + (x.mid + x.file));
    OccursCat(s, i + |x.gap|, x.sym, x.mid + x.file);
    OccursCat(s, i, x.gap, x.sym);
    var e := i + |x.gap| + |x.sym|;
    assert s[e + 0] == (x.mid + x.file)[0];
  }

  /** One redirection. */
  lemma DirRead(s: string, t: Parsed, i: nat, x: Item)
    requires NoNul(s) && x.Dir? && ItemOk(x) && Occurs(s, i, ItemText(x)) && Ended(s, i + |ItemText(x)|)
    ensures i + |ItemText(x)| <= |s| && |x.file| <= |ItemText(x)| && IsAngle(Peek(s, i))
    ensures var end := i + |ItemText(x)|; var span := Span(end - |x.file|, end);
            && ParseRedirs(s, t, i) == ParseRedirs(s, Redir(t, span, x.sym != "<"), end) && Word(s, span) == x.file
  {
    hide *;
    ItemIs(x);
    DirParts(s, i, x);
    var e, end := i + |x.gap| + |x.sym|, i + |ItemText(x)|;
    SymToken(s, i, x.gap, x.sym);
    WordToken(s, e, x.mid, x.file);
    TokenSkip(s, e);
    RedirsUnfold(s, t, i);
    RedirsSkip(s, Redir(t, Span(end - |x.file|, end), x.sym != "<"), end);
  }

  lemma ItemIs(x: Item)
    requires ItemOk(x)
    ensures x.Dir? ==> Blank(x.gap) && IsSym(x.sym) && Blank(x.mid) && WordOk(x.file)
    ensures x.Arg? ==> Blank(x.gap) && WordOk(x.word) && ItemText(x) == x.gap + x.word
  {
  }

  lemma ItemsStep(xs: seq<Item>, after: bool)
    requires |xs| > 0 && ItemsOk(xs, after)
    ensures ItemOk(xs[0]) && ItemsOk(xs[1..], true) && (after && xs[0].Arg? ==> |xs[0].gap| > 0)
    ensures ItemsText(xs) == ItemText(xs[0]) + ItemsText(xs[1..])
    ensures Args(xs) == (if xs[0].Arg? then [xs[0].word] else []) + Args(xs[1..])
    ensures OnlyDirs(xs) ==> xs[0].Dir? && OnlyDirs(xs[1..])
  {
  }

  lemma UnderStep(c: Cmd, xs: seq<Item>)
    requires |xs| > 0
    ensures Under(c, xs) == Under(if xs[0].Dir? then Redir(c, xs[0].file, xs[0].sym != "<") else c, xs[1..])
  {
  }

  lemma ItemsNone(c: Cmd)
    ensures ItemsText([]) == "" && Args([]) == [] && Under(c, []) == c && ItemsOk([], false) && ItemsOk([], true)
  {
  }

  /** What comes after a word, in the text of more items, ends the word. */
  lemma NextEnded(s: string, i: nat, xs: seq<Item>)
    requires Occurs(s, i, ItemsText(xs)) && ItemsOk(xs, true) && Ended(s, i + |ItemsText(xs)|)
    ensures Ended(s, i)
  {
    if |xs| > 0 {
      ItemsStep(xs, true);
      OccursCat(s, i, ItemText(xs[0]), ItemsText(xs[1..]));
      assert s[i + 0] == ItemText(xs[0])[0];
    }
  }

  lemma RedirText(s: string, t: Parsed, f: Span, out: bool)
    ensures Text(s, Redir(t, f, out)) == Redir(Text(s, t), Word(s, f), out)
  {
  }

  /** The redirections after a block. */
  lemma {:induction false} DirsRead(s: string, t: Parsed, i: nat, xs: seq<Item>)
    requires NoNul(s) && Occurs(s, i, ItemsText(xs)) && OnlyDirs(xs) && ItemsOk(xs, false)
    requires i + |ItemsText(xs)| <= |s| && !IsAngle(Peek(s, i + |ItemsText(xs)|)) && Ended(s, i + |ItemsText(xs)|)
    ensures var r := ParseRedirs(s, t, i);
            r.Ok? && r.i == Skip(s, i + |ItemsText(xs)|) && Text(s, r.t) == Under(Text(s, t), xs)
    decreases |xs|
  {
    hide *;
    if |xs| == 0 {
      ItemsNone(Text(s, t));
      assert xs == [];
      RedirsNone(s, t, i);
    } else {
      var x, rest := xs[0], xs[1..];
      ItemsStep(xs, false);
      AfterFalse(rest);
      OccursCat(s, i, ItemText(x), ItemsText(rest));
      var end := i + |ItemText(x)|;
      NextEnded(s, end, rest);
      DirRead(s, t, i, x);
      var t2 := Redir(t, Span(end - |x.file|, end), x.sym != "<");
      RedirText(s, t, Span(end - |x.file|, end), x.sym != "<");
      UnderStep(Text(s, t), xs);
      DirsRead(s, t2, end, rest);
    }
  }

  lemma AfterFalse(xs: seq<Item>)
    requires ItemsOk(xs, true)
    ensures ItemsOk(xs, false)
  {
  }

  // ---- words and redirections -----------------------------------------------------------------------------

  /** Redirections and then words: what is left of a command after some of its words. */
  function ParseItems(s: string, t: Parsed, words: seq<Span>, i: nat): (r: Result)
    requires i <= |s| && NoNul(s)
  {
    match ParseRedirs(s, t, i)
    case Panic => Panic
    case Ok(t2, k) => ParseWords(s, t2, words, k)
  }

  lemma ItemsSkip(s: string, t: Parsed, words: seq<Span>, i: nat)
    requires NoNul(s) && i <= |s|
    ensures ParseItems(s, t, words, Skip(s, i)) == ParseItems(s, t, words, i)
  {
    RedirsSkip(s, t, i);
  }

  /** ParseItems at a word. */
  lemma ItemsWord(s: string, t: Parsed, words: seq<Span>, i: nat)
    requires NoNul(s) && i <= |s| && !IsStop(Peek(s, i)) && !IsAngle(Peek(s, i))
    ensures var tok := GetToken(s, i);
            && (tok.kind == 'a' && |words| + 1 < MAXARGS ==>
                  ParseItems(s, t, words, i) == ParseItems(s, t, words + [Span(tok.q, tok.eq)], tok.next))
            && (tok.kind != '\0' && (tok.kind != 'a' || |words| + 1 >= MAXARGS) ==> ParseItems(s, t, words, i).Panic?)
            && (tok.kind == '\0' ==> ParseItems(s, t, words, i) == Ok(WithWords(t, words), tok.next))
  {
    RedirsNone(s, t, i);
    SkipTwice(s, i);
    TokenSkip(s, i);
    hide Skip, GetToken, ParseRedirs, IsStop, IsAngle, NoNul, WithWords;
    assert Peek(s, Skip(s, i)) == Peek(s, i);
  }

  lemma {:induction false} WithWordsText(s: string, t: Parsed, ws: seq<Span>)
    ensures Text(s, WithWords(t, ws)) == WithWords(Text(s, t), Words(s, ws))
  {
    if t.Redir? {
      WithWordsText(s, t.cmd, ws);
    }
  }

  lemma WordsSnoc(s: string, ws: seq<Span>, w: Span)
    ensures Words(s, ws + [w]) == Words(s, ws) + [Word(s, w)]
  {
  }

  /** ParseItems at the end of a command. */
  lemma ItemsDone(s: string, t: Parsed, words: seq<Span>, i: nat)
    requires NoNul(s) && AtStop(s, i)
    ensures ParseItems(s, t, words, i) == Ok(WithWords(t, words), Skip(s, i))
  {
    StopFacts(s, i);
    RedirsNone(s, t, i);
    SkipTwice(s, i);
    assert Peek(s, Skip(s, i)) == Peek(s, i);
  }

  lemma ItemsDir(s: string, t: Parsed, t2: Parsed, words: seq<Span>, i: nat, j: nat)
    requires NoNul(s) && i <= |s| && j <= |s| && ParseRedirs(s, t, i) == ParseRedirs(s, t2, j)
    ensures ParseItems(s, t, words, i) == ParseItems(s, t2, words, j)
  {
  }

  /** The rest of a command's words and redirections. */
  lemma {:induction false} ItemsRead(s: string, t: Parsed, words: seq<Span>, i: nat, xs: seq<Item>, after: bool)
    requires NoNul(s) && Occurs(s, i, ItemsText(xs)) && ItemsOk(xs, after) && |words| + |Args(xs)| < MAXARGS
    requires AtStop(s, i + |ItemsText(xs)|)
    ensures i <= |s|
    ensures var r := ParseItems(s, t, words, i);
            && r.Ok? && r.i == Skip(s, i + |ItemsText(xs)|)
            && Text(s, r.t) == WithWords(Under(Text(s, t), xs), Words(s, words) + Args(xs))
    decreases |xs|
  {
    hide *;
    OccursIn(s, i, ItemsText(xs));
    StopFacts(s, i + |ItemsText(xs)|);
    if |xs| == 0 {
      ItemsNone(Text(s, t));
      assert xs == [];
      ItemsDone(s, t, words, i);
      WithWordsText(s, t, words);
      assert Words(s, words) + [] == Words(s, words);
    } else {
      var x, rest := xs[0], xs[1..];
      ItemsStep(xs, after);
      ItemIs(x);
      OccursCat(s, i, ItemText(x), ItemsText(rest));
      var end := i + |ItemText(x)|;
      NextEnded(s, end, rest);
      UnderStep(Text(s, t), xs);
      if x.Dir? {
        DirRead(s, t, i, x);
        var span := Span(end - |x.file|, end);
        RedirText(s, t, span, x.sym != "<");
        ItemsDir(s, t, Redir(t, span, x.sym != "<"), words, i, end);
        ItemsRead(s, Redir(t, span, x.sym != "<"), words, end, rest, true);
        assert [] + Args(rest) == Args(rest);
      } else {
        WordToken(s, i, x.gap, x.word);
        var span := Span(i + |x.gap|, end);
        ItemsWord(s, t, words, i);
        WordsSnoc(s, words, span);
        ItemsSkip(s, t, words + [span], end);
        ItemsRead(s, t, words + [span], end, rest, true);
        assert Words(s, words) + [x.word] + Args(rest) == Words(s, words) + Args(xs);
      }
    }
  }

  lemma {:induction false} WithWordsUnder(c: Cmd, xs: seq<Item>, ws: seq<string>)
    ensures WithWords(Under(c, xs), ws) == Under(WithWords(c, ws), xs)
    decreases |xs|
  {
    if |xs| > 0 {
      WithWordsUnder(if xs[0].Dir? then Redir(c, xs[0].file, xs[0].sym != "<") else c, xs[1..], ws);
    }
  }

  lemma EmptyExec(s: string, xs: seq<Item>)
    ensures Text(s, Exec([])) == Exec([]) && Words(s, []) == []
    ensures WithWords(Under(Exec([]), xs), [] + Args(xs)) == Under(Exec(Args(xs)), xs)
  {
    WithWordsUnder(Exec([]), xs, Args(xs));
    assert [] + Args(xs) == Args(xs);
  }

  // ---- commands, pipelines, lines ---------------------------------------------------------------------

  lemma ExecSkip(s: string, i: nat)
    requires NoNul(s) && i <= |s|
    ensures ParseExec(s, Skip(s, i)) == ParseExec(s, i)
  {
    SkipTwice(s, i);
  }

  lemma LineSkip(s: string, i: nat)
    requires NoNul(s) && i <= |s|
    ensures ParsePipe(s, Skip(s, i)) == ParsePipe(s, i) && ParseLine(s, Skip(s, i)) == ParseLine(s, i)
  {
    ExecSkip(s, i);
  }

  /** ParseExec on a command without parentheses. */
  lemma ExecPlain(s: string, i: nat)
    requires NoNul(s) && i <= |s| && Peek(s, i) != '('
    ensures ParseExec(s, i) == ParseItems(s, Exec([]), [], i)
  {
    RedirsSkip(s, Exec([]), i);
  }

  /** A symbol of one character. */
  lemma SymbolToken(s: string, i: nat)
    requires NoNul(s) && i < |s| && IsSymbol(s[i]) && s[i] != '>'
    ensures Skip(s, i) == i && Peek(s, i) == s[i] && GetToken(s, i).next == Skip(s, i + 1)
  {
  }

  lemma BarSymbols()
    ensures IsSymbol('|') && IsSymbol(';') && IsSymbol('&') && IsSymbol('(') && IsSymbol(')')
  {
  }

  lemma CloseToken(s: string, i: nat)
    requires NoNul(s) && i <= |s| && Peek(s, i) == ')'
    ensures Skip(s, i) < |s| && GetToken(s, i).next == Skip(s, Skip(s, i) + 1)
  {
    TokenSkip(s, i);
    SymbolToken(s, Skip(s, i));
  }

  /** ParseExec on a block. */
  lemma BlockUnfold(s: string, i: nat)
    requires NoNul(s) && i < |s| && s[i] == '('
    ensures var r := ParseLine(s, i + 1);
            ParseExec(s, i) ==
              if r.Ok? && Peek(s, r.i) == ')' then ParseRedirs(s, r.t, Skip(s, r.i) + 1) else Panic
  {
    hide ParseLine, ParsePipe, ParseWords, ParseRedirs, GetToken, Skip, IsSymbol, NoNul;
    BarSymbols();
    SymbolToken(s, i);
    LineSkip(s, i + 1);
    var r := ParseLine(s, i + 1);
    if r.Ok? && Peek(s, r.i) == ')' {
      CloseToken(s, r.i);
      RedirsSkip(s, r.t, Skip(s, r.i) + 1);
    }
  }

  lemma PipeUnfold(s: string, i: nat)
    requires NoNul(s) && i <= |s|
    ensures var r := ParseExec(s, i);
            && (r.Panic? ==> ParsePipe(s, i).Panic?)
            && (r.Ok? && Peek(s, r.i) != '|' ==> ParsePipe(s, i) == Ok(r.t, Skip(s, r.i)))
            && (r.Ok? && Peek(s, r.i) == '|' ==>
                  && Skip(s, r.i) < |s|
                  && var u := ParsePipe(s, Skip(s, r.i) + 1);
                     ParsePipe(s, i) == if u.Ok? then Ok(Pipe(r.t, u.t), u.i) else Panic)
  {
    hide ParseExec, ParseLine;
    var r := ParseExec(s, i);
    if r.Ok? && Peek(s, r.i) == '|' {
      TokenSkip(s, r.i);
      SymbolToken(s, Skip(s, r.i));
      LineSkip(s, Skip(s, r.i) + 1);
    }
  }

  lemma AmpsUnfold(s: string, t: Parsed, i: nat)
    requires NoNul(s) && i <= |s|
    ensures Peek(s, i) != '&' ==> ParseAmps(s, t, i) == Ok(t, Skip(s, i))
    ensures Peek(s, i) == '&' ==>
              Skip(s, i) < |s| && ParseAmps(s, t, i) == ParseAmps(s, Back(t), Skip(s, Skip(s, i) + 1))
  {
    if Peek(s, i) == '&' {
      TokenSkip(s, i);
      SymbolToken(s, Skip(s, i));
    }
  }

  lemma LineUnfold(s: string, i: nat)
    requires NoNul(s) && i <= |s|
    ensures var p := ParsePipe(s, i);
            && (p.Panic? ==> ParseLine(s, i).Panic?)
            && (p.Ok? ==>
                  var a := ParseAmps(s, p.t, p.i);
                  && (Peek(s, a.i) != ';' ==> ParseLine(s, i) == Ok(a.t, Skip(s, a.i)))
                  && (Peek(s, a.i) == ';' ==>
                        && Skip(s, a.i) < |s|
                        && var u := ParseLine(s, Skip(s, a.i) + 1);
                           ParseLine(s, i) == if u.Ok? then Ok(List(a.t, u.t), u.i) else Panic))
  {
    hide ParsePipe, ParseExec, ParseAmps;
    var p := ParsePipe(s, i);
    if p.Ok? {
      var a := ParseAmps(s, p.t, p.i);
      if Peek(s, a.i) == ';' {
        TokenSkip(s, a.i);
        SymbolToken(s, Skip(s, a.i));
        LineSkip(s, Skip(s, a.i) + 1);
      }
    }
  }

  /** Blanks and the symbol c stand at i. */
  lemma SymbolEnd(s: string, i: nat, gap: string, c: char)
    requires NoNul(s) && Occurs(s, i, gap + [c]) && Blank(gap) && IsSymbol(c) && c != '>'
    ensures i + |gap| < |s| && Skip(s, i) == i + |gap| && s[i + |gap|] == c && Peek(s, i) == c
    ensures c == '|' ==> AtStop(s, i)
    ensures c == ')' ==> AtLineEnd(s, i)
    ensures c == '&' || c == ';' ==> AtPipeEnd(s, i)
  {
    OccursCat(s, i, gap, [c]);
    assert s[i + |gap| + 0] == [c][0];
    GapSkipped(s, i, gap);
  }

  /** The result says t and stands at the first character after `end` that is not blank. */
  ghost predicate Reads(s: string, r: Result, end: nat, t: Cmd) {
    end <= |s| && r.Ok? && r.i == Skip(s, end) && Text(s, r.t) == t
  }

  lemma ReadsIs(s: string, r: Result, end: nat, t: Cmd)
    ensures Reads(s, r, end, t) <==> end <= |s| && r.Ok? && r.i == Skip(s, end) && Text(s, r.t) == t
  {
  }

  lemma PairText(s: string, l: Parsed, r: Parsed)
    ensures Text(s, Pipe(l, r)) == Pipe(Text(s, l), Text(s, r)) && Text(s, List(l, r)) == List(Text(s, l), Text(s, r))
    ensures Text(s, Back(l)) == Back(Text(s, l))
  {
  }

  /** The parts of a written command. */
  lemma Parts(x: Source)
    requires Valid(x)
    ensures x.Simple? ==> ItemsOk(x.items, false) && |Args(x.items)| < MAXARGS && Show(x) == ItemsText(x.items)
                          && Mean(x) == Under(Exec(Args(x.items)), x.items)
    ensures x.Block? ==> Blank(x.gap) && Valid(x.line) && Blank(x.close) && OnlyDirs(x.redirs)
                         && ItemsOk(x.redirs, false) && Mean(x) == Under(Mean(x.line), x.redirs)
                         && Show(x) == (x.gap + "(") + (Show(x.line) + ((x.close + ")") + ItemsText(x.redirs)))
    ensures x.Piped? ==> Valid(x.left) && Level(x.left) == 0 && Blank(x.gap) && Valid(x.right) && Level(x.right) <= 1
                         && Show(x) == Show(x.left) + ((x.gap + "|") + Show(x.right))
                         && Mean(x) == Pipe(Mean(x.left), Mean(x.right))
    ensures x.Amp? ==> Valid(x.cmd) && Level(x.cmd) <= 2 && Blank(x.gap)
                       && Show(x) == Show(x.cmd) + (x.gap + "&") && Mean(x) == Back(Mean(x.cmd))
    ensures x.Seq? ==> Valid(x.left) && Level(x.left) <= 2 && Blank(x.gap) && Valid(x.right)
                       && Show(x) == Show(x.left) + ((x.gap + ";") + Show(x.right))
                       && Mean(x) == List(Mean(x.left), Mean(x.right))
    ensures Level(x) == if x.Simple? || x.Block? then 0 else if x.Piped? then 1 else if x.Amp? then 2 else 3
  {
  }

  lemma {:induction false} ExecReads(s: string, i: nat, x: Source)
    requires NoNul(s) && Valid(x) && Level(x) == 0 && Occurs(s, i, Show(x)) && AtStop(s, i + |Show(x)|)
    ensures i <= |s| && Reads(s, ParseExec(s, i), i + |Show(x)|, Mean(x))
    decreases x, 0
  {
    hide *;
    OccursIn(s, i, Show(x));
    var end := i + |Show(x)|;
    Parts(x);
    StopFacts(s, end);
    ReadsIs(s, ParseExec(s, i), end, Mean(x));
    if x.Simple? {
      NoParen(s, i, x.items);
      ExecPlain(s, i);
      EmptyExec(s, x.items);
      ItemsRead(s, Exec([]), [], i, x.items, false);
    } else {
      var tail := (x.close + ")") + ItemsText(x.redirs);
      OccursCat(s, i, x.gap + "(", Show(x.line) + tail);
      var b := i + |x.gap| + 1;
      OccursCat(s, b, Show(x.line), tail);
      var j := b + |Show(x.line)|;
      OccursCat(s, j, x.close + ")", ItemsText(x.redirs));
      BarSymbols();
      SymbolEnd(s, i, x.gap, '(');
      SymbolEnd(s, j, x.close, ')');
      LineReads(s, b, x.line);
      var r := ParseLine(s, b);
      ReadsIs(s, r, j, Mean(x.line));
      EndFacts(s, j);
      ExecSkip(s, i);
      BlockUnfold(s, b - 1);
      DirsRead(s, r.t, j + |x.close| + 1, x.redirs);
    }
  }

  lemma NoParen(s: string, i: nat, xs: seq<Item>)
    requires NoNul(s) && Occurs(s, i, ItemsText(xs)) && ItemsOk(xs, false) && AtStop(s, i + |ItemsText(xs)|) && i <= |s|
    ensures Peek(s, i) != '('
  {
    hide *;
    StopFacts(s, i + |ItemsText(xs)|);
    if |xs| == 0 {
      ItemsNone(Exec([]));
      assert xs == [];
    } else {
      var x := xs[0];
      ItemsStep(xs, false);
      ItemIs(x);
      OccursCat(s, i, ItemText(x), ItemsText(xs[1..]));
      NextEnded(s, i + |ItemText(x)|, xs[1..]);
      if x.Dir? {
        DirRead(s, Exec([]), i, x);
        NotBoth(Peek(s, i));
      } else {
        WordToken(s, i, x.gap, x.word);
      }
    }
  }

  lemma NotBoth(c: char)
    ensures !(IsAngle(c) && c == '(')
  {
  }

  lemma {:induction false} PipeReads(s: string, i: nat, x: Source)
    requires NoNul(s) && Valid(x) && Level(x) <= 1 && Occurs(s, i, Show(x)) && AtPipeEnd(s, i + |Show(x)|)
    ensures i <= |s| && Reads(s, ParsePipe(s, i), i + |Show(x)|, Mean(x))
    decreases x, 1
  {
    hide *;
    OccursIn(s, i, Show(x));
    var end := i + |Show(x)|;
    Parts(x);
    EndFacts(s, end);
    PipeUnfold(s, i);
    var r := ParseExec(s, i);
    ReadsIs(s, ParsePipe(s, i), end, Mean(x));
    if x.Piped? {
      OccursCat(s, i, Show(x.left), (x.gap + "|") + Show(x.right));
      var j := i + |Show(x.left)|;
      OccursCat(s, j, x.gap + "|", Show(x.right));
      BarSymbols();
      SymbolEnd(s, j, x.gap, '|');
      ExecReads(s, i, x.left);
      ReadsIs(s, r, j, Mean(x.left));
      EndFacts(s, j);
      var k := j + |x.gap| + 1;
      PipeReads(s, k, x.right);
      ReadsIs(s, ParsePipe(s, k), end, Mean(x.right));
      PairText(s, r.t, ParsePipe(s, k).t);
    } else {
      ExecReads(s, i, x);
      ReadsIs(s, r, end, Mean(x));
    }
  }

  /** A pipeline with its &s: the loop over the &s comes to a tree that says it. */
  lemma {:induction false} AmpsReads(s: string, i: nat, x: Source) returns (tr: Parsed)
    requires NoNul(s) && Valid(x) && Level(x) <= 2 && Occurs(s, i, Show(x)) && AtPipeEnd(s, i + |Show(x)|)
    ensures i + |Show(x)| <= |s|
    ensures var p := ParsePipe(s, i);
            p.Ok? && ParseAmps(s, p.t, p.i) == ParseAmps(s, tr, Skip(s, i + |Show(x)|)) && Text(s, tr) == Mean(x)
    decreases x, 2
  {
    hide *;
    OccursIn(s, i, Show(x));
    Parts(x);
    if x.Amp? {
      OccursCat(s, i, Show(x.cmd), x.gap + "&");
      var j := i + |Show(x.cmd)|;
      BarSymbols();
      SymbolEnd(s, j, x.gap, '&');
      var c := AmpsReads(s, i, x.cmd);
      EndFacts(s, j);
      AmpsUnfold(s, c, Skip(s, j));
      PairText(s, c, c);
      tr := Back(c);
    } else {
      PipeReads(s, i, x);
      var p := ParsePipe(s, i);
      ReadsIs(s, p, i + |Show(x)|, Mean(x));
      tr := p.t;
    }
  }

  lemma {:induction false} LineReads(s: string, i: nat, x: Source)
    requires NoNul(s) && Valid(x) && Occurs(s, i, Show(x)) && AtLineEnd(s, i + |Show(x)|)
    ensures i <= |s| && Reads(s, ParseLine(s, i), i + |Show(x)|, Mean(x))
    decreases x, 3
  {
    hide *;
    OccursIn(s, i, Show(x));
    var end := i + |Show(x)|;
    Parts(x);
    EndFacts(s, end);
    LineUnfold(s, i);
    ReadsIs(s, ParseLine(s, i), end, Mean(x));
    if x.Seq? {
      OccursCat(s, i, Show(x.left), (x.gap + ";") + Show(x.right));
      var j := i + |Show(x.left)|;
      OccursCat(s, j, x.gap + ";", Show(x.right));
      BarSymbols();
      SymbolEnd(s, j, x.gap, ';');
      var l := AmpsReads(s, i, x.left);
      EndFacts(s, j);
      AmpsUnfold(s, l, Skip(s, j));
      var k := j + |x.gap| + 1;
      LineReads(s, k, x.right);
      ReadsIs(s, ParseLine(s, k), end, Mean(x.right));
      PairText(s, l, ParseLine(s, k).t);
    } else {
      var l := AmpsReads(s, i, x);
      AmpsUnfold(s, l, Skip(s, end));
    }
  }

  // ---- no NUL is written ----------------------------------------------------------------------------------

  lemma NoNulCat(a: string, b: string)
    requires NoNul(a) && NoNul(b)
    ensures NoNul(a + b)
  {
  }

  lemma {:induction false} ItemsNoNul(xs: seq<Item>, after: bool)
    requires ItemsOk(xs, after)
    ensures NoNul(ItemsText(xs))
    decreases |xs|
  {
    if |xs| > 0 {
      ItemsNoNul(xs[1..], true);
      assert NoNul(ItemText(xs[0]));
    }
  }

  lemma {:induction false} ShowNoNul(x: Source)
    requires Valid(x)
    ensures NoNul(Show(x))
  {
    Parts(x);
    hide Show, Valid, ItemsText, ItemsOk;
    match x
    case Simple(xs) => ItemsNoNul(xs, false);
    case Block(gap, line, close, rs) =>
      ShowNoNul(line);
      ItemsNoNul(rs, false);
      NoNulCat(close + ")", ItemsText(rs));
      NoNulCat(Show(line), (close + ")") + ItemsText(rs));
      NoNulCat(gap + "(", Show(line) + ((close + ")") + ItemsText(rs)));
    case Piped(l, gap, r) => ShowNoNul(l); ShowNoNul(r); NoNulCat(gap + "|", Show(r));
    case Amp(c, gap) => ShowNoNul(c); NoNulCat(Show(c), gap + "&");
    case Seq(l, gap, r) => ShowNoNul(l); ShowNoNul(r); NoNulCat(gap + ";", Show(r));
  }

  /** A line of the grammar is parsed, and to what it means. */
  lemma Understood(x: Source, tail: string)
    requires Valid(x) && Blank(tail)
    ensures var s := Show(x) + tail; NoNul(s) && ParseCmd(s).Ok? && Text(s, ParseCmd(s).t) == Mean(x)
  {
    hide *;
    var s := Show(x) + tail;
    ShowNoNul(x);
    BlankNoNul(tail);
    NoNulCat(Show(x), tail);
    WholeLine(Show(x), tail);
    LineReads(s, 0, x);
    ReadsIs(s, ParseLine(s, 0), |Show(x)|, Mean(x));
    SkipTwice(s, |Show(x)|);
    CmdUnfold(s);
  }

  lemma BlankNoNul(b: string)
    requires Blank(b)
    ensures NoNul(b)
  {
  }

  lemma WholeLine(p: string, tail: string)
    requires Blank(tail)
    ensures Occurs(p + tail, 0, p) && Skip(p + tail, |p|) == |p + tail| && AtLineEnd(p + tail, |p|)
  {
    assert Occurs(p + tail, |p|, tail);
    GapSkipped(p + tail, |p|, tail);
  }

  lemma CmdUnfold(s: string)
    requires NoNul(s)
    ensures var r := ParseLine(s, 0);
            ParseCmd(s) == if r.Ok? && Skip(s, r.i) == |s| then Ok(r.t, |s|) else Panic
  {
    hide ParseLine;
  }

  // ---- every parsed line is one of the grammar --------------------------------------------------------------

  /** The word or symbol that a token is, with the blanks before it. */
  lemma TokenText(s: string, i: nat)
    requires NoNul(s) && i <= |s|
    ensures var tok := GetToken(s, i);
            && Blank(s[i..tok.q]) && Blank(s[tok.eq..tok.next]) && tok.next == Skip(s, tok.eq) && tok.q == Skip(s, i)
            && (tok.kind == 'a' ==> WordOk(s[tok.q..tok.eq]) && Ended(s, tok.eq))
            && (IsAngle(Peek(s, i)) ==> IsSym(s[tok.q..tok.eq]) && (tok.kind != '<' <==> s[tok.q..tok.eq] != "<"))
  {
  }

  lemma {:induction false} JoinItem(s: string, i: nat, x: Item, xs: seq<Item>, after: bool) returns (r: seq<Item>)
    requires ItemOk(x) && Occurs(s, i, ItemText(x)) && Occurs(s, i + |ItemText(x)|, ItemsText(xs)) && ItemsOk(xs, true)
    requires after && x.Arg? ==> |x.gap| > 0
    ensures Occurs(s, i, ItemsText(r)) && ItemsOk(r, after) && i + |ItemsText(r)| == i + |ItemText(x)| + |ItemsText(xs)|
    ensures Args(r) == (if x.Arg? then [x.word] else []) + Args(xs) && (x.Dir? && OnlyDirs(xs) ==> OnlyDirs(r))
  {
    r := [x] + xs;
    assert r[1..] == xs;
    OccursCat(s, i, ItemText(x), ItemsText(xs));
  }

  /** The redirection at i. */
  lemma DirFrom(s: string, t: Parsed, i: nat) returns (x: Item, t2: Parsed, end: nat)
    requires NoNul(s) && i <= |s| && IsAngle(Peek(s, i)) && ParseRedirs(s, t, i).Ok?
    ensures i < end <= |s| && x.Dir? && ItemOk(x) && Occurs(s, i, ItemText(x)) && end == i + |ItemText(x)|
    ensures ParseRedirs(s, t, i) == ParseRedirs(s, t2, end) && Ended(s, end)
  {
    hide *;
    var tok := GetToken(s, i);
    var file := GetToken(s, tok.next);
    RedirsUnfold(s, t, i);
    TokenSkip(s, i);
    TokenText(s, i);
    TokenText(s, tok.next);
    SkipTwice(s, tok.eq);
    end, t2 := file.eq, Redir(t, Span(file.q, file.eq), tok.kind != '<');
    RedirsSkip(s, t2, end);
    x := DirMade(s, i, tok, file);
  }

  lemma DirMade(s: string, i: nat, tok: Token, file: Token) returns (x: Item)
    requires i <= tok.q <= tok.eq <= tok.next == file.q <= file.eq <= |s|
    requires Blank(s[i..tok.q]) && IsSym(s[tok.q..tok.eq]) && Blank(s[tok.eq..tok.next]) && WordOk(s[file.q..file.eq])
    ensures x.Dir? && ItemOk(x) && Occurs(s, i, ItemText(x)) && file.eq == i + |ItemText(x)| && i < file.eq
  {
    hide Blank, IsSym, Occurs;
    x := Dir(s[i..tok.q], s[tok.q..tok.eq], s[tok.eq..file.q], s[file.q..file.eq]);
    assert |s[file.q..file.eq]| > 0;
    hide WordOk;
    assert ItemText(x) == s[i..file.eq] by {
      assert s[i..file.eq] == s[i..tok.q] + s[tok.q..file.eq];
      assert s[tok.q..file.eq] == s[tok.q..tok.eq] + s[tok.eq..file.eq];
      assert s[tok.eq..file.eq] == s[tok.eq..file.q] + s[file.q..file.eq];
    }
    OccursSlice(s, i, file.eq);
  }

  lemma {:induction false} DirsFrom(s: string, t: Parsed, i: nat) returns (xs: seq<Item>, j: nat)
    requires NoNul(s) && i <= |s| && ParseRedirs(s, t, i).Ok?
    ensures j == i + |ItemsText(xs)| <= |s| && Occurs(s, i, ItemsText(xs)) && OnlyDirs(xs) && ItemsOk(xs, true)
    ensures ParseRedirs(s, t, i).i == Skip(s, j)
    decreases |s| - i
  {
    hide *;
    if IsAngle(Peek(s, i)) {
      var x, t2, end := DirFrom(s, t, i);
      xs, j := DirsFrom(s, t2, end);
      xs := JoinItem(s, i, x, xs, true);
    } else {
      RedirsNone(s, t, i);
      ItemsNone(Exec([]));
      xs, j := [], i;
      OccursNone(s, i);
      NoDirs();
    }
  }

  lemma OccursNone(s: string, i: nat)
    requires i <= |s|
    ensures Occurs(s, i, "")
  {
  }

  lemma NoDirs()
    ensures OnlyDirs([])
  {
  }

  /** The words and redirections at i. */
  lemma {:induction false} ItemsFrom(s: string, t: Parsed, words: seq<Span>, i: nat, after: bool)
    returns (xs: seq<Item>, j: nat)
    requires NoNul(s) && i <= |s| && ParseItems(s, t, words, i).Ok? && |words| < MAXARGS && (after ==> Ended(s, i))
    ensures j == i + |ItemsText(xs)| <= |s| && Occurs(s, i, ItemsText(xs)) && ItemsOk(xs, after)
    ensures |words| + |Args(xs)| < MAXARGS && ParseItems(s, t, words, i).i == Skip(s, j)
    decreases |s| - i
  {
    hide *;
    if IsAngle(Peek(s, i)) {
      RedirsOk(s, t, words, i);
      var x, t2, end := DirFrom(s, t, i);
      ItemsDir(s, t, t2, words, i, end);
      xs, j := ItemsFrom(s, t2, words, end, true);
      xs := JoinItem(s, i, x, xs, after);
    } else if IsStop(Peek(s, i)) || Skip(s, i) == |s| {
      NoItems(s, i);
      ItemsDone(s, t, words, i);
      xs, j := [], i;
    } else {
      ItemsWord(s, t, words, i);
      NotAtEnd(s, i);
      var tok := GetToken(s, i);
      var x := WordFrom(s, i, after);
      ItemsSkip(s, t, words + [Span(tok.q, tok.eq)], tok.eq);
      xs, j := ItemsFrom(s, t, words + [Span(tok.q, tok.eq)], tok.eq, true);
      xs := JoinItem(s, i, x, xs, after);
    }
  }

  lemma RedirsOk(s: string, t: Parsed, words: seq<Span>, i: nat)
    requires NoNul(s) && i <= |s| && ParseItems(s, t, words, i).Ok?
    ensures ParseRedirs(s, t, i).Ok?
  {
  }

  lemma NoItems(s: string, i: nat)
    requires i <= |s| && (IsStop(Peek(s, i)) || Skip(s, i) == |s|)
    ensures AtStop(s, i) && ItemsText([]) == "" && Args([]) == [] && Occurs(s, i, "")
    ensures ItemsOk([], false) && ItemsOk([], true)
  {
  }

  lemma NotAtEnd(s: string, i: nat)
    requires NoNul(s) && i <= |s| && Skip(s, i) != |s|
    ensures GetToken(s, i).kind != '\0'
  {
  }

  lemma WordFrom(s: string, i: nat, after: bool) returns (x: Item)
    requires NoNul(s) && i <= |s| && GetToken(s, i).kind == 'a' && (after ==> Ended(s, i))
    ensures var tok := GetToken(s, i);
            && i < tok.eq <= |s| && tok.next == Skip(s, tok.eq) && Ended(s, tok.eq)
            && x.Arg? && ItemOk(x) && Occurs(s, i, ItemText(x)) && tok.eq == i + |ItemText(x)|
            && (after ==> |x.gap| > 0)
  {
    var tok := GetToken(s, i);
    TokenText(s, i);
    x := Arg(s[i..tok.q], s[tok.q..tok.eq]);
    assert ItemText(x) == s[i..tok.eq];
    OccursSlice(s, i, tok.eq);
    assert IsWordChar(s[tok.q]);
  }

  /** The symbol c after the blanks at j. */
  lemma SymbolFrom(s: string, j: nat, c: char) returns (gap: string)
    requires j <= |s| && Peek(s, j) == c && c != '\0'
    ensures Skip(s, j) < |s| && Blank(gap) && Occurs(s, j, gap + [c]) && Skip(s, j) + 1 == j + |gap + [c]|
  {
    var k := Skip(s, j);
    gap := s[j..k];
    assert gap + [c] == s[j..k + 1];
    OccursSlice(s, j, k + 1);
  }

  /** How a command that has been parsed is written. */
  lemma {:induction false} ExecFrom(s: string, i: nat) returns (x: Source, j: nat)
    requires NoNul(s) && i <= |s| && ParseExec(s, i).Ok?
    ensures Valid(x) && Level(x) == 0 && Occurs(s, i, Show(x)) && j == i + |Show(x)| <= |s|
    ensures ParseExec(s, i).i == Skip(s, j)
    decreases |s| - i, 0
  {
    hide *;
    if Peek(s, i) == '(' {
      var gap := SymbolFrom(s, i, '(');
      var b := Skip(s, i);
      ExecSkip(s, i);
      BlockAt(s, i);
      BlockUnfold(s, b);
      var line, e := LineFrom(s, b + 1);
      var r := ParseLine(s, b + 1);
      EndFacts(s, e);
      var close := SymbolFrom(s, e, ')');
      var rs, end := DirsFrom(s, r.t, Skip(s, e) + 1);
      x, j := Block(gap, line, close, rs), end;
      AfterFalse(rs);
      BlockShows(gap, line, close, rs);
      OccursCat(s, e, close + [')'], ItemsText(rs));
      OccursCat(s, b + 1, Show(line), (close + [')']) + ItemsText(rs));
      OccursCat(s, i, gap + ['('], Show(line) + ((close + [')']) + ItemsText(rs)));
    } else {
      ExecPlain(s, i);
      SomeArgs();
      var xs, end := ItemsFrom(s, Exec([]), [], i, false);
      x, j := Simple(xs), end;
      SimpleShows(xs);
    }
  }

  lemma SomeArgs()
    ensures MAXARGS > 0
  {
  }

  lemma BlockAt(s: string, i: nat)
    requires i <= |s| && Peek(s, i) == '('
    ensures Skip(s, i) < |s| && s[Skip(s, i)] == '('
  {
  }

  lemma SimpleShows(xs: seq<Item>)
    requires ItemsOk(xs, false) && |Args(xs)| < MAXARGS
    ensures Valid(Simple(xs)) && Level(Simple(xs)) == 0 && Show(Simple(xs)) == ItemsText(xs)
  {
  }

  lemma BlockShows(gap: string, line: Source, close: string, rs: seq<Item>)
    requires Blank(gap) && Valid(line) && Blank(close) && OnlyDirs(rs) && ItemsOk(rs, false)
    ensures var x := Block(gap, line, close, rs);
            && Valid(x) && Level(x) == 0
            && Show(x) == (gap + ['(']) + (Show(line) + ((close + [')']) + ItemsText(rs)))
  {
  }

  lemma PipedShows(l: Source, gap: string, r: Source)
    requires Valid(l) && Level(l) == 0 && Blank(gap) && Valid(r) && Level(r) <= 1
    ensures var x := Piped(l, gap, r); Valid(x) && Level(x) == 1 && Show(x) == Show(l) + ((gap + ['|']) + Show(r))
  {
  }

  lemma AmpShows(c: Source, gap: string)
    requires Valid(c) && Level(c) <= 2 && Blank(gap)
    ensures var x := Amp(c, gap); Valid(x) && Level(x) == 2 && Show(x) == Show(c) + (gap + ['&'])
  {
  }

  lemma SeqShows(l: Source, gap: string, r: Source)
    requires Valid(l) && Level(l) <= 2 && Blank(gap) && Valid(r)
    ensures var x := Seq(l, gap, r); Valid(x) && Show(x) == Show(l) + ((gap + [';']) + Show(r))
  {
  }

  lemma {:induction false} PipeFrom(s: string, i: nat) returns (x: Source, j: nat)
    requires NoNul(s) && i <= |s| && ParsePipe(s, i).Ok?
    ensures Valid(x) && Level(x) <= 1 && Occurs(s, i, Show(x)) && j == i + |Show(x)| <= |s|
    ensures ParsePipe(s, i).i == Skip(s, j)
    decreases |s| - i, 1
  {
    hide *;
    PipeUnfold(s, i);
    var r := ParseExec(s, i);
    x, j := ExecFrom(s, i);
    EndFacts(s, j);
    if Peek(s, r.i) == '|' {
      var gap := SymbolFrom(s, j, '|');
      var y, end := PipeFrom(s, Skip(s, j) + 1);
      PipedShows(x, gap, y);
      OccursCat(s, j, gap + ['|'], Show(y));
      OccursCat(s, i, Show(x), (gap + ['|']) + Show(y));
      x, j := Piped(x, gap, y), end;
    }
  }

  /** The &s after the pipeline x, which ends at j. */
  lemma {:induction false} AmpsFrom(s: string, i: nat, t: Parsed, x: Source, j: nat) returns (y: Source, end: nat)
    requires NoNul(s) && Valid(x) && Level(x) <= 2 && Occurs(s, i, Show(x)) && j == i + |Show(x)| <= |s|
    ensures Valid(y) && Level(y) <= 2 && Occurs(s, i, Show(y)) && j <= end == i + |Show(y)| <= |s|
    ensures ParseAmps(s, t, Skip(s, j)).i == Skip(s, end)
    decreases |s| - j
  {
    hide *;
    AmpsUnfold(s, t, Skip(s, j));
    EndFacts(s, j);
    if Peek(s, j) == '&' {
      var gap := SymbolFrom(s, j, '&');
      AmpShows(x, gap);
      OccursCat(s, i, Show(x), gap + ['&']);
      y, end := AmpsFrom(s, i, Back(t), Amp(x, gap), j + |gap + ['&']|);
    } else {
      y, end := x, j;
    }
  }

  lemma {:induction false} LineFrom(s: string, i: nat) returns (x: Source, j: nat)
    requires NoNul(s) && i <= |s| && ParseLine(s, i).Ok?
    ensures Valid(x) && Occurs(s, i, Show(x)) && j == i + |Show(x)| <= |s|
    ensures ParseLine(s, i).i == Skip(s, j)
    decreases |s| - i, 2
  {
    hide *;
    LineUnfold(s, i);
    var p := ParsePipe(s, i);
    x, j := PipeFrom(s, i);
    x, j := AmpsFrom(s, i, p.t, x, j);
    EndFacts(s, j);
    if Peek(s, j) == ';' {
      var gap := SymbolFrom(s, j, ';');
      var y, end := LineFrom(s, Skip(s, j) + 1);
      SeqShows(x, gap, y);
      OccursCat(s, j, gap + [';'], Show(y));
      OccursCat(s, i, Show(x), (gap + [';']) + Show(y));
      x, j := Seq(x, gap, y), end;
    }
  }

  /** A line that is parsed is one of the grammar. */
  lemma Written(s: string) returns (x: Source, tail: string)
    requires NoNul(s) && ParseCmd(s).Ok?
    ensures Valid(x) && Blank(tail) && s == Show(x) + tail
  {
    hide Show, Valid, ParseLine;
    var j;
    x, j := LineFrom(s, 0);
    tail := s[j..];
    SkipTwice(s, j);
    OccursIn(s, 0, Show(x));
    assert s == s[0..j] + tail;
  }

  /** The result is what the grammar says of the line. */
  ghost predicate Decides(s: string, r: Result) {
    forall t: Cmd :: Says(s, t) <==> r.Ok? && Text(s, r.t) == t
  }

  /** The parser is the grammar: a line is parsed, to a tree that says a command, exactly if the grammar says that the
      line means it; so that no line means two commands. */
  lemma ParserExact(s: string, t: Cmd)
    requires NoNul(s)
    ensures Says(s, t) <==> ParseCmd(s).Ok? && Text(s, ParseCmd(s).t) == t
  {
    hide Valid, Show, Mean, ParseCmd, Text, Blank;
    if ParseCmd(s).Ok? {
      var x, tail := Written(s);
      Understood(x, tail);
    }
    if x: Source, tail: string :| Valid(x) && Blank(tail) && s == Show(x) + tail && Mean(x) == t {
      Understood(x, tail);
    }
  }

  // ---- every command can be written ---------------------------------------------------------------------------

  /** A command with words that can be written, at most nine of them in one exec. */
  predicate CmdOk(t: Cmd) {
    match t
    case Exec(ws) => |ws| < MAXARGS && forall k | 0 <= k < |ws| :: WordOk(ws[k])
    case Redir(c, f, _) => CmdOk(c) && WordOk(f)
    case Pipe(l, r) => CmdOk(l) && CmdOk(r)
    case List(l, r) => CmdOk(l) && CmdOk(r)
    case Back(c) => CmdOk(c)
  }

  /** The command under the redirections, and the redirections, innermost first. */
  function Base(t: Cmd): (b: Cmd)
    ensures !b.Redir? && (t.Redir? ==> b < t) && (!t.Redir? ==> b == t)
  {
    if t.Redir? then Base(t.cmd) else t
  }

  function Dirs(t: Cmd): seq<Item> {
    if t.Redir? then Dirs(t.cmd) + [Dir(" ", if t.out then ">" else "<", " ", t.file)] else []
  }

  function ArgItems(ws: seq<string>): seq<Item> {
    if |ws| == 0 then [] else [Arg(" ", ws[0])] + ArgItems(ws[1..])
  }

  /** A line: pipelines with & after them, joined by semicolons.  Parentheses go around what would otherwise be read
      differently. */
  function PrintLine(t: Cmd): Source
    decreases t, 3
  {
    match t
    case List(l, r) => Seq(PrintAmps(l), "", PrintLine(r))
    case Back(c) => Amp(PrintAmps(c), "")
    case _ => PrintPipe(t)
  }

  function PrintAmps(t: Cmd): Source
    decreases t, 7
  {
    if t.Back? then Amp(PrintAmps(t.cmd), "") else PrintPipe(t)
  }

  function PrintPipe(t: Cmd): Source
    decreases t, if t.Pipe? || t.Exec? || t.Redir? then 2 else 6
  {
    if t.Pipe? then Piped(PrintExec(t.left), "", PrintPipe(t.right)) else PrintExec(t)
  }

  function PrintExec(t: Cmd): Source
    decreases t, if t.Exec? || t.Redir? then 1 else 5
  {
    if Base(t).Exec? then Simple(ArgItems(Base(t).words) + Dirs(t)) else Block("", PrintLine(Base(t)), "", Dirs(t))
  }

  lemma {:induction false} UnderMore(c: Cmd, xs: seq<Item>, x: Item)
    requires x.Dir?
    ensures Under(c, xs + [x]) == Redir(Under(c, xs), x.file, x.sym != "<")
    decreases |xs|
  {
    if |xs| > 0 {
      assert (xs + [x])[1..] == xs[1..] + [x];
      UnderMore(if xs[0].Dir? then Redir(c, xs[0].file, xs[0].sym != "<") else c, xs[1..], x);
    } else {
      assert xs + [x] == [x] && [x][1..] == [];
    }
  }

  lemma {:induction false} ItemsMore(xs: seq<Item>, x: Item, after: bool)
    requires ItemsOk(xs, after) && x.Dir? && ItemOk(x)
    ensures ItemsOk(xs + [x], after) && Args(xs + [x]) == Args(xs)
    decreases |xs|
  {
    if |xs| > 0 {
      assert (xs + [x])[1..] == xs[1..] + [x];
      ItemsMore(xs[1..], x, true);
    } else {
      assert xs + [x] == [x] && [x][1..] == [];
    }
  }

  /** Words, and then the redirections of t. */
  lemma {:induction false} DirsWritten(xs: seq<Item>, t: Cmd)
    requires ItemsOk(xs, false) && CmdOk(t)
    ensures ItemsOk(xs + Dirs(t), false) && Args(xs + Dirs(t)) == Args(xs) && CmdOk(Base(t)) && OnlyDirs(Dirs(t))
  {
    hide ItemsOk, Args, CmdOk, ItemOk;
    if t.Redir? {
      var x := Dir(" ", if t.out then ">" else "<", " ", t.file);
      RedirItem(t);
      DirsWritten(xs, t.cmd);
      ItemsMore(xs + Dirs(t.cmd), x, false);
      assert xs + Dirs(t) == xs + Dirs(t.cmd) + [x];
    } else {
      assert xs + [] == xs;
    }
  }

  lemma RedirItem(t: Cmd)
    requires CmdOk(t) && t.Redir?
    ensures CmdOk(t.cmd) && ItemOk(Dir(" ", if t.out then ">" else "<", " ", t.file))
  {
  }

  lemma {:induction false} UnderDirs(c: Cmd, xs: seq<Item>, t: Cmd)
    requires Under(c, xs) == Base(t)
    ensures Under(c, xs + Dirs(t)) == t
    decreases t
  {
    hide Under;
    if t.Redir? {
      UnderDirs(c, xs, t.cmd);
      var x := Dir(" ", if t.out then ">" else "<", " ", t.file);
      UnderMore(c, xs + Dirs(t.cmd), x);
      assert xs + Dirs(t) == xs + Dirs(t.cmd) + [x];
    } else {
      assert xs + [] == xs;
    }
  }

  lemma {:induction false} ArgsWritten(ws: seq<string>, c: Cmd)
    requires forall k | 0 <= k < |ws| :: WordOk(ws[k])
    ensures ItemsOk(ArgItems(ws), true) && ItemsOk(ArgItems(ws), false) && Args(ArgItems(ws)) == ws
    ensures Under(c, ArgItems(ws)) == c
    decreases |ws|
  {
    if |ws| > 0 {
      ArgsWritten(ws[1..], c);
      assert ArgItems(ws)[1..] == ArgItems(ws[1..]);
    }
  }

  ghost predicate Writes(x: Source, t: Cmd, level: nat) {
    Valid(x) && Level(x) <= level && Mean(x) == t
  }

  lemma {:induction false} ExecWritten(t: Cmd)
    requires CmdOk(t)
    ensures Writes(PrintExec(t), t, 0)
    decreases t, if t.Exec? || t.Redir? then 1 else 5
  {
    var b := Base(t);
    if b.Exec? {
      DirsWritten([], t);
      ArgsWritten(b.words, b);
      DirsWritten(ArgItems(b.words), t);
      UnderDirs(b, ArgItems(b.words), t);
    } else {
      DirsWritten([], t);
      assert [] + Dirs(t) == Dirs(t);
      LineWritten(b);
      UnderDirs(b, [], t);
    }
  }

  lemma {:induction false} PipeWritten(t: Cmd)
    requires CmdOk(t)
    ensures Writes(PrintPipe(t), t, 1)
    decreases t, if t.Pipe? || t.Exec? || t.Redir? then 2 else 6
  {
    if t.Pipe? {
      ExecWritten(t.left);
      PipeWritten(t.right);
    } else {
      ExecWritten(t);
    }
  }

  lemma {:induction false} AmpsWritten(t: Cmd)
    requires CmdOk(t)
    ensures Writes(PrintAmps(t), t, 2)
    decreases t, 7
  {
    if t.Back? {
      AmpsWritten(t.cmd);
    } else {
      PipeWritten(t);
    }
  }

  lemma {:induction false} LineWritten(t: Cmd)
    requires CmdOk(t)
    ensures Writes(PrintLine(t), t, 3)
    decreases t, 3
  {
    match t
    case List(l, r) => AmpsWritten(l); LineWritten(r);
    case Back(c) => AmpsWritten(c);
    case _ => PipeWritten(t);
  }

  /** Every command with words that can be written is what its printed form is parsed to. */
  lemma RoundTrip(t: Cmd)
    requires CmdOk(t)
    ensures var s := Show(PrintLine(t)); NoNul(s) && ParseCmd(s).Ok? && Text(s, ParseCmd(s).t) == t
  {
    LineWritten(t);
    hide Show, Valid, Mean, PrintLine, Text, ParseCmd;
    Understood(PrintLine(t), "");
    assert Show(PrintLine(t)) + "" == Show(PrintLine(t));
  }

  lemma WordText(s: string, w: Span)
    requires WordSpan(s, w)
    ensures WordOk(Word(s, w))
  {
  }

  lemma {:induction false} GoodText(s: string, t: Parsed)
    requires Good(s, t)
    ensures CmdOk(Text(s, t))
  {
    match t
    case Exec(ws) =>
      forall k | 0 <= k < |ws| ensures WordOk(Words(s, ws)[k]) {
        WordText(s, ws[k]);
      }
    case Redir(c, f, _) => GoodText(s, c); WordText(s, f);
    case Pipe(l, r) => GoodText(s, l); GoodText(s, r);
    case List(l, r) => GoodText(s, l); GoodText(s, r);
    case Back(c) => GoodText(s, c);
  }

  /** Every line that parses says a command that can be printed, and the printed form says the same. */
  lemma NormalForm(s: string)
    requires NoNul(s) && ParseCmd(s).Ok?
    ensures var t := Text(s, ParseCmd(s).t);
            && CmdOk(t)
            && var s2 := Show(PrintLine(t)); NoNul(s2) && ParseCmd(s2).Ok? && Text(s2, ParseCmd(s2).t) == t
  {
    LineGood(s, 0);
    hide Text, Show, PrintLine;
    GoodText(s, ParseCmd(s).t);
    RoundTrip(Text(s, ParseCmd(s).t));
  }
}
