/** The batch client end to end: lines read from a stream that comes in pieces of any size
    (client/readline.cc), each scanned in place by `add_line`, and what is left at the end of the
    stream sent as a last statement (client/mysql.cc). */
module BatchClient {
  import opened Common
  import opened StatementLine
  import StatementLexer
  import StatementSplitting
  import StatementSplitter
  import LineReader

  const START: Carry := Carry(NUL, false, "", [], [])

  /** The three bytes of a UTF-8 byte order mark. */
  const MARK: string := [0xEF as char, 0xBB as char, 0xBF as char]

  /** The first line, without a mark in front of it. */
  function Unmarked(line: string): string {
    if MARK <= line then line[|MARK|..] else line
  }

  function WithoutMark(lines: seq<string>): seq<string> {
    if lines == [] then [] else [Unmarked(lines[0])] + lines[1..]
  }

  /** The lines before the first one that holds a NUL. */
  function PlainPart(lines: seq<string>): (r: seq<string>)
    ensures r <= lines && forall l | l in r :: NUL !in l
    ensures |r| < |lines| ==> NUL in lines[|r|]
  {
    if lines == [] || NUL in lines[0] then [] else [lines[0]] + PlainPart(lines[1..])
  }

  datatype Ending = EndOfFile | NulInLine | Stopped

  /** Where the lines end, if no command stops them. */
  function EndingOf(lines: seq<string>): Ending {
    if PlainPart(lines) == lines then EndOfFile else NulInLine
  }

  /** One line: a command found at its start is run, any other line is split in place. */
  method TakeLine(cfg: Config, text: string, truncated: bool, at: nat, c: Carry)
    returns (quit: bool, cfg': Config, c': Carry)
    requires cfg.Valid() && StatementSplitter.Apart(c)
    ensures cfg'.Valid() && StatementSplitter.Apart(c')
    ensures !LineCommand(cfg, text, c) && AddLine(cfg, at, text, truncated, c).Done? ==>
              !quit && cfg' == cfg && c' == AddLine(cfg, at, text, truncated, c).c
  {
    hide AddLine;
    if LineCommand(cfg, text, c) {
      quit, cfg', c' := StatementSplitter.RunCommand(cfg, c);
    } else {
      var n := |text|;
      var line := new char[n + 1](j requires 0 <= j => if j < n then text[j] else NUL);
      assert line[..n] == text;
      quit, cfg', c' := StatementSplitter.AddLineInPlace(cfg, line, n, at, truncated, c);
    }
  }

  /** The loop of `read_and_execute` over its lines. */
  method FeedInPlace(cfg: Config, pieces: seq<LineReader.Piece>) returns (end: Ending, c: Carry)
    requires cfg.Valid()
    ensures StatementSplitter.Apart(c)
    ensures LineReader.Untruncated(pieces) ==>
              var lines := WithoutMark(LineReader.Texts(pieces));
              var all := Feed(cfg, 0, PlainPart(lines), START);
              all.Done? ==> end == EndingOf(lines) && c == all.c
  {
    hide AddLine, LineCommand, Feed, PlainPart, EndingOf;
    var now, at: nat, quit := cfg, 0, false;
    c := START;
    ghost var lines := WithoutMark(LineReader.Texts(pieces));
    ghost var all := Feed(cfg, 0, PlainPart(lines), START);
    ghost var known := LineReader.Untruncated(pieces) && all.Done?;
    assert lines[0..] == lines;
    for i := 0 to |pieces|
      invariant now.Valid() && StatementSplitter.Apart(c)
      invariant known ==> now == cfg && Ahead(cfg, lines, at, i, c)
    {
      var text := pieces[i].text;
      if i == 0 {
        text := Unmarked(text);
      }
      assert lines[i] == text;
      AheadOne(cfg, lines, at, i, c);
      if NUL in text {
        return NulInLine, c;
      }
      quit, now, c := TakeLine(now, text, pieces[i].truncated, at, c);
      if quit {
        return Stopped, c;
      }
      at := at + |text| + 1;
    }
    AheadEnd(cfg, lines, at, c);
    end := EndOfFile;
  }

  /** After `i` lines the state is `c`, and what is still ahead leads from there to the final one. */
  ghost predicate Ahead(cfg: Config, lines: seq<string>, at: nat, i: nat, c: Carry)
    requires cfg.Valid()
  {
    && i <= |lines|
    && Feed(cfg, 0, PlainPart(lines), START) == Feed(cfg, at, PlainPart(lines[i..]), c)
    && EndingOf(lines) == EndingOf(lines[i..])
  }

  lemma AheadOne(cfg: Config, lines: seq<string>, at: nat, i: nat, c: Carry)
    requires cfg.Valid() && i < |lines|
    ensures Ahead(cfg, lines, at, i, c) && Feed(cfg, 0, PlainPart(lines), START).Done? ==>
              var r := AddLine(cfg, at, lines[i], false, c);
              if NUL in lines[i] then
                EndingOf(lines) == NulInLine && Feed(cfg, 0, PlainPart(lines), START) == Done(c)
              else !LineCommand(cfg, lines[i], c) && r.Done? && Ahead(cfg, lines, at + |lines[i]| + 1, i + 1, r.c)
  {
    hide AddLine, LineCommand, Feed;
    var rest := lines[i..];
    assert rest[0] == lines[i] && rest[1..] == lines[i + 1..];
    if NUL in lines[i] {
      FeedNothing(cfg, at, c);
    } else {
      assert PlainPart(rest) == [rest[0]] + PlainPart(rest[1..]);
      assert PlainPart(rest)[1..] == PlainPart(rest[1..]);
      assert rest == [rest[0]] + rest[1..];
      FeedOne(cfg, at, PlainPart(rest), c);
    }
  }

  lemma AheadEnd(cfg: Config, lines: seq<string>, at: nat, c: Carry)
    requires cfg.Valid()
    ensures Ahead(cfg, lines, at, |lines|, c) ==>
              EndingOf(lines) == EndOfFile && Feed(cfg, 0, PlainPart(lines), START) == Done(c)
  {
    assert lines[|lines|..] == [];
    FeedNothing(cfg, at, c);
  }

  lemma FeedNothing(cfg: Config, at: nat, c: Carry)
    requires cfg.Valid()
    ensures Feed(cfg, at, [], c) == Done(c)
  {
  }

  lemma FeedOne(cfg: Config, at: nat, lines: seq<string>, c: Carry)
    requires cfg.Valid() && lines != []
    ensures Feed(cfg, at, lines, c).Done? ==>
              var r := AddLine(cfg, at, lines[0], false, c);
              && !LineCommand(cfg, lines[0], c) && r.Done?
              && Feed(cfg, at, lines, c) == Feed(cfg, at + |lines[0]| + 1, lines[1..], r.c)
  {
    hide AddLine, LineCommand;
  }

  /** `s` without the characters at its end that leave no mark on paper. */
  function Trimmed(s: string, graphic: char -> bool): (r: string)
    ensures r <= s && (r != "" ==> graphic(r[|r| - 1]))
    ensures forall i | |r| <= i < |s| :: !graphic(s[i])
  {
    if s == "" || graphic(s[|s| - 1]) then s else Trimmed(s[..|s| - 1], graphic)
  }

  /** `remove_cntrl` */
  method RemoveCntrl(s: string, graphic: char -> bool) returns (r: string)
    ensures r == Trimmed(s, graphic)
  {
    var end := |s|;
    assert s[..end] == s;
    while 0 < end && !graphic(s[end - 1])
      invariant 0 <= end <= |s| && Trimmed(s[..end], graphic) == Trimmed(s, graphic)
    {
      assert s[..end][..end - 1] == s[..end - 1];
      end := end - 1;
    }
    r := s[..end];
  }

  /** What is left over when the lines have ended, as the statements of a last send. */
  function Remainder(s: string, graphic: char -> bool): seq<string> {
    if Trimmed(s, graphic) == "" then [] else [Trimmed(s, graphic)]
  }

  /** A batch run, whatever the sizes of the reads. If the stream's lines fit the line
      buffer, and the scan of their text meets no client command, then the statements sent and the offsets
      they end at are exactly those of that scan, with the trimmed remainder sent last. The text is that of
      the lines without a byte order mark in front, and stops before a line with a NUL, which ends the run
      without that last send. */
  method Batch(cfg: Config, graphic: char -> bool, b: LineReader.LineBuffer) returns (end: Ending, c: Carry)
    requires cfg.Valid() && b.Valid() && !b.failed
    modifies b, b.buffer
    ensures !b.failed && old(LineReader.LinesFit(b.Pending(), b.maxSize)) ==>
              var lines := WithoutMark(old(LineReader.Lines(b.Pending(), false)));
              match StatementLexer.Statements(cfg, Text(PlainPart(lines)))
              case ClientCommand => true
              case Found(p) =>
                && end == EndingOf(lines) && c.cuts == p.cuts
                && c.sent == p.stmts + if end == EndOfFile then Remainder(p.cur, graphic) else []
  {
    hide Feed, LineReader.Lines, LineReader.LinesFit, StatementLexer.Statements, Text;
    ghost var stream := b.Pending();
    ghost var lines := WithoutMark(LineReader.Lines(stream, false));
    var pieces := LineReader.ReadAll(b, false);
    end, c := FeedInPlace(cfg, pieces);
    if !b.failed {
      PlainLines(stream);
      StatementSplitting.LinesFindTheStatements(cfg, PlainPart(lines));
    }
    ghost var sent := c.sent;
    // A command that ends the client may leave it in good order, too.
    var ok: bool := *;
    if !b.failed && (end == EndOfFile || (end == Stopped && ok)) {
      var rest := RemoveCntrl(c.buffer, graphic);
      if rest != "" {
        c := c.(sent := c.sent + [rest], buffer := "");
      }
    }
    assert sent + [] == sent;
  }

  lemma {:induction false} LinesArePlain(s: string)
    ensures forall l | l in LineReader.Lines(s, false) :: '\n' !in l
    decreases |s|
  {
    if s != "" {
      LineReader.AfterFirstLineShorter(s);
      LinesArePlain(LineReader.AfterFirstLine(s));
    }
  }

  lemma PlainLines(s: string)
    ensures var lines := PlainPart(WithoutMark(LineReader.Lines(s, false)));
            forall i | 0 <= i < |lines| :: NUL !in lines[i] && '\n' !in lines[i]
  {
    hide LineReader.Lines;
    LinesArePlain(s);
    var lines := WithoutMark(LineReader.Lines(s, false));
    forall i | 0 <= i < |lines|
      ensures '\n' !in lines[i]
    {
      assert LineReader.Lines(s, false)[i] in LineReader.Lines(s, false);
    }
  }
}
