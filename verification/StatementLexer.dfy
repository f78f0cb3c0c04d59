/**
 A reference for the statement splitter: one left-to-right scan of the whole text that jumps over
 quoted strings, block comments and line comments, and cuts at the delimiters in between. It knows
 nothing of lines fed one at a time, of cursors or of a line edited in place; it does follow the
 liberties the client takes with a statement's text: a space put after a block comment, the newline left
 out after a line that starts like a DELIMITER command, and, when comments are not kept, blanks left out
 in front of a statement and the star put for the end of a server-side comment inside another one.
 */
module StatementLexer {
  import opened Common
  import opened StatementLine

  /** `owed`: a space is due before the next character. `ss`: inside a server-side comment on this line.
      `run` is the text since the line, the last statement or the last comment began or ended, `cur` the
      current statement and `stmts` the finished ones. */
  datatype Progress = Progress(owed: bool, ss: bool, run: string, stmts: seq<string>, cuts: seq<nat>, cur: string)
  {
    function Raw(x: string): Progress {
      this.(run := run + x, cur := cur + x)
    }

    function Add(x: char): Progress {
      Raw(if owed && !IsSpace(x) then [' ', x] else [x]).(owed := false)
    }

    function Bound(): Progress {
      this.(run := "")
    }

    /** The current statement is complete. */
    function End(): Progress {
      this.(stmts := stmts + [cur], cur := "", run := "")
    }

    function Cut(at: nat): Progress {
      End().(cuts := cuts + [at])
    }

    /** The same in a comment, of which the text is kept or not. */
    function RawIf(keep: bool, x: string): Progress {
      if keep then Raw(x) else this
    }

    function AddIf(keep: bool, x: char): Progress {
      if keep then Add(x) else this
    }

    /** The statement without the text since. */
    function Before(): string {
      if |run| <= |cur| then cur[..|cur| - |run|] else ""
    }

    /** The end of a line, `open` if within a string or comment, and `dropped` if within a comment that is
        not kept, where the text since goes too. */
    function NewLine(open: bool, dropped: bool): Progress {
      var end := if cur == "" || (!open && IsDelimiterCommand(run)) then "" else "\n";
      Progress(false, false, "", stmts, cuts, if dropped then Before() else cur + end)
    }

    /** The client looks for a command at the end of every line, in a dropped comment without the last
        character of what is before it. */
    predicate IsCommand(cfg: Config, dropped: bool) {
      if dropped then cur != "" && Before() != "" && cfg.isCommand(Before()[..|Before()| - 1])
      else cur != "" && cfg.isCommand(cur)
    }
  }

  datatype Result = Found(p: Progress) | ClientCommand

  /** A string or comment body: how far it reaches, whether its end was found, and where the scan is after
      it; or a client command in it. */
  datatype Span = Span(len: nat, closed: bool, p: Progress) | CommandInside
  {
    function After(n: nat): Span {
      if CommandInside? then this else this.(len := len + n)
    }

    predicate Within(t: string) {
      Span? ==> len <= |t|
    }
  }

  /** The body of a string opened by `q`, up to and including its closing quote.
      A backslash at the end of a line escapes nothing and is dropped. */
  function Quoted(cfg: Config, t: string, q: char, p: Progress): (r: Span)
    ensures r.Within(t)
    decreases |t|
  {
    if t == "" then Span(0, false, p)
    else if t[0] == '\n' then
      if p.IsCommand(cfg, false) then CommandInside else Quoted(cfg, t[1..], q, p.NewLine(true, false)).After(1)
    else if t[0] == '\\' && Escapes(cfg, q) then
      if |t| == 1 || t[1] == '\n' then Quoted(cfg, t[1..], q, p).After(1)
      else Quoted(cfg, t[2..], q, p.Raw(t[..2])).After(2)
    else if t[0] == q then Span(1, true, p.Add(q))
    else Quoted(cfg, t[1..], q, p.Add(t[0])).After(1)
  }

  /** The body of a block comment, up to and including its end. */
  function Commented(cfg: Config, t: string, p: Progress): (r: Span)
    ensures r.Within(t)
    decreases |t|
  {
    var keep := cfg.preserveComments;
    if t == "" then Span(0, false, p)
    else if t[0] == '\n' then
      if p.IsCommand(cfg, !keep) then CommandInside else Commented(cfg, t[1..], p.NewLine(true, !keep)).After(1)
    else if OpensBlock(t) then Commented(cfg, t[2..], p.RawIf(keep, "/*").Bound()).After(2)
    else if Closes(t) then
      if p.ss then Commented(cfg, t[2..], p.(ss := false).Raw("*").AddIf(keep, '/')).After(2)
      else Span(2, true, p.RawIf(keep, "*/").Bound().(owed := true))
    else Commented(cfg, t[1..], p.(ss := p.ss || OpensServerSide(t)).AddIf(keep, t[0])).After(1)
  }

  /** Where the current line ends. */
  function LineEnd(t: string): (n: nat)
    ensures n <= |t|
    ensures n < |t| ==> t[n] == '\n'
    ensures '\n' !in t[..n]
    ensures t != "" && t[0] != '\n' ==> n > 0
  {
    if t == "" || t[0] == '\n' then 0 else 1 + LineEnd(t[1..])
  }

  /** The blanks at the front of `t`, on the current line. */
  function Blanks(t: string): (n: nat)
    ensures n <= |t|
  {
    if t == "" || t[0] == '\n' || !IsSpace(t[0]) then 0 else 1 + Blanks(t[1..])
  }

  predicate TrailingComment(t: string) {
    At(t, 0) == '#' || (At(t, 0) == '-' && At(t, 1) == '-' && IsSpace(At(t, 2)) && At(t, 2) != '\n')
  }

  predicate StartsLineComment(t: string, blank: bool) {
    At(t, 0) == '#' || (At(t, 0) == '-' && At(t, 1) == '-' && (IsSpace(At(t, 2)) || |t| == 2 || blank))
  }

  /** What belongs to a statement behind its delimiter: blanks, and a comment that follows them. */
  function Trailer(t: string): (n: nat)
    ensures n <= |t|
  {
    var b := Blanks(t);
    if TrailingComment(t[b..]) then b + LineEnd(t[b..]) else b
  }

  /** Scan `t`, which starts at offset `at` outside strings and comments. */
  function Lex(cfg: Config, at: nat, t: string, p: Progress): Result
    requires cfg.Valid()
    decreases |t|, 0
  {
    if t == "" then Found(p)
    else if t[0] == '\n' then
      if p.IsCommand(cfg, false) then ClientCommand else LexLine(cfg, at + 1, t[1..], p.NewLine(false, false))
    else if !cfg.preserveComments && IsSpace(t[0]) && p.cur == "" then Lex(cfg, at + 1, t[1..], p)
    else if t[0] == '\\' then
      if |t| == 1 || t[1] == '\n' then Lex(cfg, at + 1, t[1..], p)
      else if t[1] != 'N' && (t[1] in cfg.shortCommands || cfg.stopOnError) then ClientCommand
      else Lex(cfg, at + 2, t[2..], p.Raw(t[..2]))
    else if cfg.delimiter <= t then
      var n := |cfg.delimiter| + if cfg.preserveComments then Trailer(t[|cfg.delimiter|..]) else 0;
      var p' := p.Raw(t[|cfg.delimiter|..n]);
      if cfg.isCommand(p'.cur) then ClientCommand else Lex(cfg, at + n, t[n..], p'.Cut(at))
    else if StartsLineComment(t, p.cur == "") then
      var n := LineEnd(t);
      var p' := p.RawIf(cfg.preserveComments, t[..n]).Bound();
      if t[0] == '#' && cfg.isConnect(p.cur) then ClientCommand
      else Lex(cfg, at + n, t[n..], if cfg.preserveComments && p.cur == "" then p'.End() else p')
    else if OpensBlock(t) then
      Onward(cfg, at + 2, t[2..], Commented(cfg, t[2..], p.RawIf(cfg.preserveComments, "/*").Bound()))
    else if IsQuote(t[0]) then Onward(cfg, at + 1, t[1..], Quoted(cfg, t[1..], t[0], p.Add(t[0])))
    else if OpensServerSide(t) then Lex(cfg, at + 1, t[1..], p.(ss := true).Add('/'))
    else if p.ss && Closes(t) then Lex(cfg, at + 2, t[2..], p.(ss := false).Raw("*").Add('/'))
    else Lex(cfg, at + 1, t[1..], p.Add(t[0]))
  }

  /** Scan on after the string or comment body `r` at the front of `t`. */
  function Onward(cfg: Config, at: nat, t: string, r: Span): Result
    requires cfg.Valid() && r.Within(t)
    decreases |t|, 2
  {
    match r
    case CommandInside => ClientCommand
    case Span(len, closed, p) => if closed then Lex(cfg, at + len, t[len..], p) else Found(p)
  }

  /** Scan on at the start of a line. */
  function LexLine(cfg: Config, at: nat, t: string, p: Progress): Result
    requires cfg.Valid()
    decreases |t|, 1
  {
    if t != "" && (cfg.namedCommands || p.cur == "") && cfg.isCommand(t[..LineEnd(t)]) then ClientCommand
    else Lex(cfg, at, t, p)
  }

  /** Scan on from inside a string, inside a comment, or outside both. */
  function Resume(cfg: Config, at: nat, t: string, q: char, ml: bool, p: Progress): Result
    requires cfg.Valid()
  {
    if ml then Onward(cfg, at, t, Commented(cfg, t, p))
    else if q != NUL then Onward(cfg, at, t, Quoted(cfg, t, q, p))
    else Lex(cfg, at, t, p)
  }

  /** The reference result for a whole text. */
  function Statements(cfg: Config, t: string): Result
    requires cfg.Valid()
  {
    LexLine(cfg, 0, t, Progress(false, false, "", [], [], ""))
  }
}
