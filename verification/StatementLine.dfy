/**
 The statement splitter of the interactive client: `add_line` of client/mysql.cc,
 in MySQL mode with a single-byte character set, as a function on strings.

 A line is seen as the suffix that is still unread, so the two cursors of the source
 (`pos` and `out`) appear as `rest` (what `pos` still has to read) and `out` (what has
 been written at the front of the line since the last flush into the statement buffer).
 */
module StatementLine {
  import opened Common

  predicate IsQuote(c: char) {
    c == '\'' || c == '"' || c == '`'
  }

  /** What the source reads at `pos + i`: the line is followed by a NUL. */
  function At(s: string, i: nat): char {
    if i < |s| then s[i] else NUL
  }

  /** The client's settings. `isCommand` is the long-form `find_command`, `isConnect` the
      test for a `conn` statement before a `#`; both are opaque to the splitter. */
  datatype Config = Config(
    delimiter: string,
    preserveComments: bool,
    ansiQuotes: bool,
    noBackslashEscapes: bool,
    shortCommands: set<char>,
    stopOnError: bool,
    namedCommands: bool,
    isCommand: string -> bool,
    isConnect: string -> bool)
  {
    predicate Valid() {
      delimiter != "" && forall i | 0 <= i < |delimiter| :: delimiter[i] != NUL && delimiter[i] != '\n'
    }
  }

  /** What `read_and_execute` carries from line to line. `cuts` records the offset in the whole
      input of every delimiter at which the delimiter branch was taken. */
  datatype Carry = Carry(inString: char, mlComment: bool, buffer: string, sent: seq<string>, cuts: seq<nat>)

  datatype Cursor = Cursor(at: nat, rest: string, out: string, needSpace: bool, ssComment: bool, c: Carry)
  {
    /** `buffer.is_empty() && out == line` */
    predicate Fresh() {
      c.buffer == "" && out == ""
    }

    /** What has been written so far on the line goes to the statement. */
    function Flush(): Cursor {
      this.(c := c.(buffer := c.buffer + out), out := "")
    }

    function Read(n: nat): Cursor
      requires n <= |rest|
    {
      this.(at := at + n, rest := rest[n..])
    }

    function Put(s: string): Cursor {
      this.(out := out + s)
    }
  }

  datatype Outcome = Next(s: Cursor) | Break(s: Cursor) | Command
  {
    /** The read cursor moves on, within the line. */
    predicate Advances(s0: Cursor) {
      Next? ==> |s.rest| < |s0.rest| && s.at + |s.rest| == s0.at + |s0.rest|
    }
  }

  /** The prefix of `s` before its first NUL: what `buffer.append(pos)` copies. */
  function CString(s: string): (r: string)
    ensures r <= s && NUL !in r
    ensures NUL !in s ==> r == s
  {
    if s == "" || s[0] == NUL then "" else [s[0]] + CString(s[1..])
  }

  /** The spaces at the front of `s`. */
  function LeadingSpaces(s: string): (n: nat)
    ensures n <= |s|
  {
    if s == "" || !IsSpace(s[0]) then 0 else 1 + LeadingSpaces(s[1..])
  }

  function Lower(c: char): char {
    if 'A' <= c <= 'Z' then ((c as int) + 32) as char else c
  }

  /** `is_delimiter_command` */
  predicate IsDelimiterCommand(s: string) {
    |s| >= 9 && forall i | 0 <= i < 9 :: Lower(s[i]) == "delimiter"[i]
  }

  // ----- the branches of the loop, in the order of the source -----

  predicate SkipsSpace(cfg: Config, s: Cursor)
    requires s.rest != ""
  {
    !cfg.preserveComments && IsSpace(s.rest[0]) && s.Fresh()
  }

  /** Whether a backslash escapes inside a string opened by `q` (or outside one, for NUL). */
  predicate Escapes(cfg: Config, q: char) {
    q != '`' && !(q == '"' && cfg.ansiQuotes) && !(q != NUL && cfg.noBackslashEscapes)
  }

  predicate IsEscape(cfg: Config, s: Cursor)
    requires s.rest != ""
  {
    !s.c.mlComment && s.rest[0] == '\\' && Escapes(cfg, s.c.inString)
  }

  function EscapeStep(cfg: Config, s: Cursor): (o: Outcome)
    requires s.rest != ""
    ensures o.Advances(s)
  {
    var x := At(s.rest, 1);
    if x == NUL then Break(s)
    else if s.c.inString != NUL || x == 'N' then Next(s.Put(['\\', x]).Read(2))
    else if x in cfg.shortCommands || cfg.stopOnError then Command
    else Next(s.Put(['\\', x]).Read(2))
  }

  predicate IsDelimiter(cfg: Config, s: Cursor) {
    !s.c.mlComment && s.c.inString == NUL && cfg.delimiter <= s.rest
  }

  /** A single-line comment that follows a delimiter on the same line. */
  predicate IsTrailingComment(r: string) {
    At(r, 0) == '#' || (At(r, 0) == '-' && At(r, 1) == '-' && IsSpace(At(r, 2)))
  }

  function Send(s: Cursor): Cursor {
    s.(c := s.c.(sent := s.c.sent + [s.c.buffer], buffer := ""))
  }

  /** Past the delimiter and, when comments are kept, the spaces after it; all accepted characters are flushed. */
  function AfterSpaces(cfg: Config, s: Cursor): Cursor
    requires cfg.delimiter <= s.rest
  {
    var s1 := s.Read(|cfg.delimiter|);
    var k := if cfg.preserveComments then LeadingSpaces(s1.rest) else 0;
    s1.Put(s1.rest[..k]).Read(k).Flush()
  }

  /** A comment behind the delimiter goes with the statement. */
  function TakeTrailing(cfg: Config, s: Cursor): Cursor {
    if cfg.preserveComments && IsTrailingComment(s.rest) then
      var comment := CString(s.rest);
      s.(c := s.c.(buffer := s.c.buffer + comment)).Read(|comment|)
    else s
  }

  function DelimiterStep(cfg: Config, s: Cursor): (o: Outcome)
    requires cfg.delimiter <= s.rest
    ensures cfg.Valid() ==> o.Advances(s)
  {
    var s' := TakeTrailing(cfg, AfterSpaces(cfg, s));
    if cfg.isCommand(s'.c.buffer) then Command
    else Next(Send(s'.(c := s'.c.(cuts := s'.c.cuts + [s.at]))))
  }

  predicate IsLineComment(s: Cursor)
    requires s.rest != ""
  {
    && !s.c.mlComment && s.c.inString == NUL
    && (|| s.rest[0] == '#'
        || (&& s.rest[0] == '-' && At(s.rest, 1) == '-'
            && (IsSpace(At(s.rest, 2)) || At(s.rest, 2) == NUL || s.Fresh())))
  }

  function LineCommentStep(cfg: Config, s: Cursor): Outcome
    requires s.rest != ""
  {
    var s1 := s.Flush();
    if s.rest[0] == '#' && cfg.isConnect(s1.c.buffer) then Command
    else if cfg.preserveComments then
      var s2 := s1.(c := s1.c.(buffer := s1.c.buffer + CString(s.rest)));
      Break(if s1.c.buffer == "" then Send(s2) else s2)
    else Break(s1)
  }

  // A comment opening that is not one of the server-side forms (with `!`, `+` or `M!` after it).
  predicate OpensBlock(r: string) {
    && At(r, 0) == '/' && At(r, 1) == '*'
    && !(At(r, 2) == '!' || At(r, 2) == '+' || (At(r, 2) == 'M' && At(r, 3) == '!'))
  }

  predicate OpensServerSide(r: string) {
    At(r, 0) == '/' && At(r, 1) == '*' && (At(r, 2) == '!' || At(r, 2) == '+')
  }

  predicate Closes(r: string) {
    At(r, 0) == '*' && At(r, 1) == '/'
  }

  function OpenStep(cfg: Config, s: Cursor): (o: Outcome)
    requires OpensBlock(s.rest)
    ensures o.Advances(s)
  {
    var s1 := if cfg.preserveComments then s.Put("/*") else s;
    Next(s1.(c := s.c.(mlComment := true)).Read(2).Flush())
  }

  function CloseStep(cfg: Config, s: Cursor): (o: Outcome)
    requires Closes(s.rest)
    ensures o.Advances(s)
  {
    var s1 := if cfg.preserveComments then s.Put("*/") else s;
    Next(s1.(c := s.c.(mlComment := false), needSpace := true).Read(2).Flush())
  }

  /** The quote state after reading `x` as an ordinary character. */
  function Quoting(c: Carry, x: char): char {
    if x == c.inString then NUL
    else if !c.mlComment && c.inString == NUL && IsQuote(x) then x
    else c.inString
  }

  function AddChar(cfg: Config, s: Cursor, x: char): Cursor {
    var s1 := s.(c := s.c.(inString := Quoting(s.c, x)));
    if !s.c.mlComment || cfg.preserveComments then
      s1.Put(if s.needSpace && !IsSpace(x) then [' ', x] else [x]).(needSpace := false)
    else s1
  }

  function PlainStep(cfg: Config, s: Cursor): (o: Outcome)
    requires s.rest != ""
    ensures o.Advances(s)
  {
    if s.c.inString == NUL && OpensServerSide(s.rest) then
      Next(AddChar(cfg, s.(ssComment := true), s.rest[0]).Read(1))
    else if s.c.inString == NUL && s.ssComment && Closes(s.rest) then
      Next(AddChar(cfg, s.(ssComment := false).Put("*"), '/').Read(2))
    else
      Next(AddChar(cfg, s, s.rest[0]).Read(1))
  }

  /** One iteration of the loop. */
  function Step(cfg: Config, s: Cursor): (o: Outcome)
    requires cfg.Valid() && s.rest != ""
    ensures o.Advances(s)
  {
    if SkipsSpace(cfg, s) then Next(s.Read(1))
    else if IsEscape(cfg, s) then EscapeStep(cfg, s)
    else if IsDelimiter(cfg, s) then DelimiterStep(cfg, s)
    else if IsLineComment(s) then LineCommentStep(cfg, s)
    else if s.c.inString == NUL && OpensBlock(s.rest) then OpenStep(cfg, s)
    else if s.c.mlComment && !s.ssComment && Closes(s.rest) then CloseStep(cfg, s)
    else PlainStep(cfg, s)
  }

  /** The whole loop; `Command` when a client command is met. */
  function Loop(cfg: Config, s: Cursor): (o: Outcome)
    requires cfg.Valid()
    ensures !o.Next?
    decreases |s.rest|
  {
    if s.rest == "" then Break(s)
    else
      match Step(cfg, s)
      case Next(s') => Loop(cfg, s')
      case o => o
  }

  /** The code after the loop: the rest of the line, and a newline, go to the buffer. */
  function AddsNewline(truncated: bool, s: Cursor): bool {
    !truncated && (!IsDelimiterCommand(s.out) || s.c.inString != NUL || s.c.mlComment)
  }

  function EndOfLine(cfg: Config, truncated: bool, s: Cursor): Carry {
    if s.Fresh() then s.c
    else if s.c.mlComment && !cfg.preserveComments then s.c
    else s.c.(buffer := s.c.buffer + s.out + if AddsNewline(truncated, s) then "\n" else "")
  }

  /** The string handed to the last `find_command`. */
  function Probe(truncated: bool, s: Cursor, buffer: string): string {
    if AddsNewline(truncated, s) && buffer != "" then buffer[..|buffer| - 1] else buffer
  }

  datatype LineResult = Done(c: Carry) | LeftToCommand

  /** `add_line` on a line at offset `at` of the input. */
  function AddLine(cfg: Config, at: nat, line: string, truncated: bool, c: Carry): LineResult
    requires cfg.Valid()
  {
    if At(line, 0) == NUL && c.buffer == "" then Done(c)
    else
      match Loop(cfg, Cursor(at, line, "", false, false, c))
      case Command => LeftToCommand
      case Break(s) =>
        var c' := EndOfLine(cfg, truncated, s);
        if !s.Fresh() && c'.buffer != "" && cfg.isCommand(Probe(truncated, s, c'.buffer))
        then LeftToCommand else Done(c')
  }

  /** A client command at the start of a line: between statements or, with --named-commands, outside
      strings and comments. */
  predicate LineCommand(cfg: Config, line: string, c: Carry) {
    (cfg.namedCommands || c.buffer == "") && !c.mlComment && c.inString == NUL && cfg.isCommand(line)
  }

  /** Feeding lines one after another. */
  function Feed(cfg: Config, at: nat, lines: seq<string>, c: Carry): LineResult
    requires cfg.Valid()
    decreases |lines|
  {
    if lines == [] then Done(c)
    else if LineCommand(cfg, lines[0], c) then LeftToCommand
    else
      match AddLine(cfg, at, lines[0], false, c)
      case LeftToCommand => LeftToCommand
      case Done(c') => Feed(cfg, at + |lines[0]| + 1, lines[1..], c')
  }

  /** The whole text: every line ends in a newline. */
  function Text(lines: seq<string>): string {
    if lines == [] then "" else lines[0] + "\n" + Text(lines[1..])
  }
}
