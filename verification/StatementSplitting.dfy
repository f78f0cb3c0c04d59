/**
 Feeding a text line by line to `add_line` finds the same statements as one scan of the whole text.
 */
module StatementSplitting {
  import opened Common
  import opened StatementLine
  import opened StatementLexer

  /** The scan's view of a cursor. */
  function View(s: Cursor): Progress {
    Progress(s.needSpace, s.ssComment, s.out, s.c.sent, s.c.cuts, s.c.buffer + s.out)
  }

  function ResumeAt(cfg: Config, s: Cursor, tail: string): Result
    requires cfg.Valid()
  {
    Resume(cfg, s.at, s.rest + "\n" + tail, s.c.inString, s.c.mlComment, View(s))
  }

  /** A string's quote, or none, and not inside a string and a comment at once. */
  predicate Proper(c: Carry) {
    (c.inString == NUL || IsQuote(c.inString)) && !(c.inString != NUL && c.mlComment)
  }

  /** In a string the statement holds at least its quote. */
  predicate Begun(s: Cursor) {
    s.c.inString != NUL ==> View(s).cur != ""
  }

  /** Plain text on one line. */
  predicate Sound(s: Cursor) {
    NUL !in s.rest && '\n' !in s.rest && Proper(s.c) && Begun(s)
  }

  /** Inside a comment that is not kept. */
  predicate Dropped(cfg: Config, c: Carry) {
    c.mlComment && !cfg.preserveComments
  }

  /** What a step of the line leaves for the scan: the same result, from the line's end if it stops there. */
  predicate Agrees(cfg: Config, s: Cursor, o: Outcome, tail: string)
    requires cfg.Valid()
  {
    match o
    case Next(s') => Sound(s') && ResumeAt(cfg, s', tail) == ResumeAt(cfg, s, tail)
    case Break(s') =>
      && Proper(s'.c) && Begun(s')
      && Resume(cfg, s.at + |s.rest|, "\n" + tail, s'.c.inString, s'.c.mlComment, View(s')) == ResumeAt(cfg, s, tail)
    case Command => ResumeAt(cfg, s, tail) == ClientCommand
  }

  // ----- views -----

  lemma PutView(s: Cursor, x: string)
    ensures View(s.Put(x)) == View(s).Raw(x)
  {
    assert s.c.buffer + (s.out + x) == s.c.buffer + s.out + x;
  }

  lemma FlushView(s: Cursor)
    ensures View(s.Flush()) == View(s).Bound()
  {
    assert s.c.buffer + s.out + "" == s.c.buffer + s.out;
  }

  lemma SendView(s: Cursor)
    requires s.out == ""
    ensures View(Send(s)) == View(s).End()
  {
    assert s.c.buffer + "" == s.c.buffer;
  }

  lemma AddCharView(cfg: Config, s: Cursor, x: char)
    ensures View(AddChar(cfg, s, x)) == View(s).AddIf(!Dropped(cfg, s.c), x)
  {
    PutView(s, if s.needSpace && !IsSpace(x) then [' ', x] else [x]);
  }

  /** What `add_line` sees past the end of a line and what the scan sees there are told apart by no test. */
  lemma Lookahead(r: string, tail: string)
    requires NUL !in r && '\n' !in r && r != ""
    ensures var t := r + "\n" + tail;
            && t[0] == r[0] && t[0] != '\n'
            && OpensBlock(t) == OpensBlock(r)
            && OpensServerSide(t) == OpensServerSide(r)
            && Closes(t) == Closes(r)
            && (|r| >= 2 ==> t[1] == r[1] != '\n') && (|r| == 1 ==> t[1] == '\n')
            && t[1..] == r[1..] + "\n" + tail
            && (|r| >= 2 ==> t[2..] == r[2..] + "\n" + tail)
  {
    var t := r + "\n" + tail;
    assert forall i | 0 <= i < |r| :: t[i] == r[i];
    assert t[|r|] == '\n';
  }

  lemma DelimiterAgrees(cfg: Config, r: string, tail: string)
    requires cfg.Valid() && NUL !in r && '\n' !in r
    ensures cfg.delimiter <= r + "\n" + tail <==> cfg.delimiter <= r
  {
    var t := r + "\n" + tail;
    assert t[|r|] == '\n';
    assert forall i | 0 <= i < |r| :: t[i] == r[i];
  }

  /** The scan inside a string or comment, further on. */
  lemma OnwardShift(cfg: Config, at: nat, t: string, n: nat, r: Span)
    requires cfg.Valid() && n <= |t| && r.Within(t[n..])
    ensures Onward(cfg, at, t, r.After(n)) == Onward(cfg, at + n, t[n..], r)
  {
    hide Lex;
    if r.Span? {
      assert t[n..][r.len..] == t[n + r.len..];
    }
  }

  // ----- one lemma for each branch -----

  /** When comments are not kept, blanks in front of a statement are skipped. */
  lemma SkipAgrees(cfg: Config, s: Cursor, tail: string)
    requires cfg.Valid() && Sound(s) && s.rest != "" && SkipsSpace(cfg, s)
    ensures Agrees(cfg, s, Next(s.Read(1)), tail)
  {
    hide OpensBlock, OpensServerSide, Closes, StartsLineComment, Quoted, LexLine, Trailer;
    var t, p := s.rest + "\n" + tail, View(s);
    Lookahead(s.rest, tail);
    assert p.cur == "" && s.c.inString == NUL;
    NoBracket(t);
    if s.c.mlComment {
      OnwardShift(cfg, s.at, t, 1, Commented(cfg, t[1..], p));
    }
  }

  lemma NoBracket(t: string)
    requires t != "" && IsSpace(t[0])
    ensures !OpensBlock(t) && !Closes(t) && !OpensServerSide(t)
  {
  }

  /** A backslash at the end of a line escapes nothing and is dropped. */
  lemma EscapeAtEnd(cfg: Config, s: Cursor, tail: string)
    requires cfg.Valid() && Sound(s) && |s.rest| == 1 && IsEscape(cfg, s)
    ensures Agrees(cfg, s, EscapeStep(cfg, s), tail)
  {
    hide OpensBlock, OpensServerSide, Closes, StartsLineComment, Commented, LexLine;
    var t, p := s.rest + "\n" + tail, View(s);
    Lookahead(s.rest, tail);
    assert t[1..] == "\n" + tail;
    if s.c.inString != NUL {
      OnwardShift(cfg, s.at, t, 1, Quoted(cfg, t[1..], s.c.inString, p));
    }
  }

  lemma EscapeAgrees(cfg: Config, s: Cursor, tail: string)
    requires cfg.Valid() && Sound(s) && s.rest != "" && IsEscape(cfg, s)
    ensures Agrees(cfg, s, EscapeStep(cfg, s), tail)
  {
    hide OpensBlock, OpensServerSide, Closes, StartsLineComment, Commented, LexLine;
    if |s.rest| == 1 {
      EscapeAtEnd(cfg, s, tail);
    } else {
      var t, p := s.rest + "\n" + tail, View(s);
      Lookahead(s.rest, tail);
      assert t[..2] == ['\\', s.rest[1]];
      PutView(s, t[..2]);
      if s.c.inString != NUL {
        OnwardShift(cfg, s.at, t, 2, Quoted(cfg, t[2..], s.c.inString, p.Raw(t[..2])));
      }
    }
  }

  lemma {:induction false} BlanksAgree(r: string, tail: string)
    requires NUL !in r && '\n' !in r
    ensures Blanks(r + "\n" + tail) == LeadingSpaces(r)
  {
    if r != "" {
      BlanksAgree(r[1..], tail);
      assert (r + "\n" + tail)[1..] == r[1..] + "\n" + tail;
    }
  }

  lemma {:induction false} LineEndAgrees(r: string, tail: string)
    requires '\n' !in r
    ensures LineEnd(r + "\n" + tail) == |r|
  {
    if r != "" {
      LineEndAgrees(r[1..], tail);
      assert (r + "\n" + tail)[1..] == r[1..] + "\n" + tail;
    }
  }

  lemma TrailingAgrees(r: string, tail: string)
    requires NUL !in r && '\n' !in r
    ensures TrailingComment(r + "\n" + tail) == IsTrailingComment(r)
  {
    var t := r + "\n" + tail;
    assert forall i | 0 <= i < |r| :: t[i] == r[i];
    assert t[|r|] == '\n';
  }

  /** How much of the line belongs to the statement behind its delimiter. */
  function TrailerOf(r: string): (n: nat)
    ensures n <= |r|
  {
    var k := LeadingSpaces(r);
    if IsTrailingComment(r[k..]) then k + |CString(r[k..])| else k
  }

  lemma TrailerAgrees(r: string, tail: string)
    requires NUL !in r && '\n' !in r
    ensures Trailer(r + "\n" + tail) == TrailerOf(r)
  {
    hide Blanks, LineEnd, TrailingComment, IsTrailingComment;
    BlanksAgree(r, tail);
    var k := LeadingSpaces(r);
    assert (r + "\n" + tail)[k..] == r[k..] + "\n" + tail;
    TrailingAgrees(r[k..], tail);
    LineEndAgrees(r[k..], tail);
  }

  lemma SubSlice(s: string, d: nat, k: nat)
    requires d + k <= |s|
    ensures s[d..][..k] == s[d..d + k] && s[d..][k..] == s[d + k..]
  {
  }

  /** Behind the delimiter: the blanks have joined the statement. */
  lemma BlanksView(cfg: Config, s: Cursor)
    requires cfg.Valid() && cfg.preserveComments && Sound(s) && cfg.delimiter <= s.rest
    ensures var d := |cfg.delimiter|;
            var n := d + LeadingSpaces(s.rest[d..]);
            AfterSpaces(cfg, s) ==
            s.(at := s.at + n, rest := s.rest[n..], out := "", c := s.c.(buffer := s.c.buffer + s.out + s.rest[d..n]))
  {
    hide LeadingSpaces;
    var d := |cfg.delimiter|;
    var r := s.rest[d..];
    var k := LeadingSpaces(r);
    SubSlice(s.rest, d, k);
    assert s.c.buffer + (s.out + r[..k]) == s.c.buffer + s.out + r[..k];
  }

  /** A comment behind them has joined it too. */
  lemma CommentView(cfg: Config, s: Cursor, was: string, r: string, k: nat)
    requires cfg.preserveComments && NUL !in r && k <= |r| && s.rest == r[k..] && s.c.buffer == was + r[..k]
    ensures var m := if IsTrailingComment(s.rest) then |r| else k;
            TakeTrailing(cfg, s) == s.(at := s.at + m - k, rest := r[m..], c := s.c.(buffer := was + r[..m]))
  {
    hide IsTrailingComment;
    assert was + r[..k] + r[k..] == was + (r[..k] + r[k..]);
    assert r[..k] + r[k..] == r == r[..|r|];
    assert r[k..][|r[k..]|..] == r[|r|..];
  }

  /** How far the delimiter and what joins the statement behind it reach. */
  function CutLength(cfg: Config, r: string): (n: nat)
    requires cfg.delimiter <= r
    ensures |cfg.delimiter| <= n <= |r|
  {
    |cfg.delimiter| + if cfg.preserveComments then TrailerOf(r[|cfg.delimiter|..]) else 0
  }

  lemma KeptTaken(cfg: Config, s: Cursor, d: nat, n: nat)
    requires cfg.Valid() && cfg.preserveComments && Sound(s) && cfg.delimiter <= s.rest
    requires d == |cfg.delimiter| && n == CutLength(cfg, s.rest)
    ensures TakeTrailing(cfg, AfterSpaces(cfg, s)) ==
            s.(at := s.at + n, rest := s.rest[n..], out := "", c := s.c.(buffer := s.c.buffer + s.out + s.rest[d..n]))
  {
    hide LeadingSpaces, IsTrailingComment, AfterSpaces, TakeTrailing;
    var r, was := s.rest[d..], s.c.buffer + s.out;
    var k := LeadingSpaces(r);
    BlanksView(cfg, s);
    SubSlice(s.rest, d, k);
    CommentView(cfg, AfterSpaces(cfg, s), was, r, k);
    var m := TrailerOf(r);
    SubSlice(s.rest, d, m);
  }

  lemma NothingTaken(cfg: Config, s: Cursor, d: nat)
    requires cfg.Valid() && !cfg.preserveComments && cfg.delimiter <= s.rest && d == |cfg.delimiter|
    ensures TakeTrailing(cfg, AfterSpaces(cfg, s)) ==
            s.(at := s.at + d, rest := s.rest[d..], out := "", c := s.c.(buffer := s.c.buffer + s.out + s.rest[d..d]))
  {
    var r, was := s.rest[d..], s.c.buffer + s.out;
    assert r[0..] == r && s.out + r[..0] == s.out && was + s.rest[d..d] == was;
  }

  /** Behind the delimiter: the blanks, and a comment, have joined the statement, if comments are kept. */
  lemma TakenView(cfg: Config, s: Cursor)
    requires cfg.Valid() && Sound(s) && cfg.delimiter <= s.rest
    ensures var d := |cfg.delimiter|;
            var n := CutLength(cfg, s.rest);
            TakeTrailing(cfg, AfterSpaces(cfg, s)) ==
            s.(at := s.at + n, rest := s.rest[n..], out := "", c := s.c.(buffer := s.c.buffer + s.out + s.rest[d..n]))
  {
    hide TakeTrailing, AfterSpaces, TrailerOf;
    if cfg.preserveComments {
      KeptTaken(cfg, s, |cfg.delimiter|, CutLength(cfg, s.rest));
    } else {
      NothingTaken(cfg, s, |cfg.delimiter|);
    }
  }

  /** The scan at a delimiter. */
  lemma LexCut(cfg: Config, at: nat, t: string, p: Progress)
    requires cfg.Valid() && cfg.delimiter <= t && t[0] != '\\' && t[0] != '\n'
    requires cfg.preserveComments || !IsSpace(t[0]) || p.cur != ""
    ensures var n := |cfg.delimiter| + if cfg.preserveComments then Trailer(t[|cfg.delimiter|..]) else 0;
            var p' := p.Raw(t[|cfg.delimiter|..n]);
            Lex(cfg, at, t, p) ==
            if cfg.isCommand(p'.cur) then ClientCommand else Lex(cfg, at + n, t[n..], p'.Cut(at))
  {
    hide Onward, LexLine, Quoted, Commented, Trailer, LineEnd, StartsLineComment;
  }

  lemma DelimiterStepAgrees(cfg: Config, s: Cursor, tail: string)
    requires cfg.Valid() && Sound(s) && s.rest != ""
    requires !SkipsSpace(cfg, s) && !IsEscape(cfg, s) && IsDelimiter(cfg, s)
    ensures Agrees(cfg, s, DelimiterStep(cfg, s), tail)
  {
    hide AfterSpaces, TakeTrailing, Lex, Trailer, TrailerOf, OpensBlock, OpensServerSide, Closes;
    var t, d, n := s.rest + "\n" + tail, |cfg.delimiter|, CutLength(cfg, s.rest);
    Lookahead(s.rest, tail);
    DelimiterAgrees(cfg, s.rest, tail);
    assert t[d..] == s.rest[d..] + "\n" + tail;
    TrailerAgrees(s.rest[d..], tail);
    LexCut(cfg, s.at, t, View(s));
    TakenView(cfg, s);
    assert t[d..n] == s.rest[d..n] && t[n..] == s.rest[n..] + "\n" + tail;
    var m := TakeTrailing(cfg, AfterSpaces(cfg, s));
    assert m.c.buffer + "" == m.c.buffer;
    SendView(m.(c := m.c.(cuts := m.c.cuts + [s.at])));
  }

  lemma LexLineComment(cfg: Config, at: nat, r: string, tail: string, p: Progress)
    requires cfg.Valid() && NUL !in r && '\n' !in r && !(cfg.delimiter <= r)
    requires At(r, 0) == '#' || (At(r, 0) == '-' && At(r, 1) == '-' && (IsSpace(At(r, 2)) || |r| == 2 || p.cur == ""))
    ensures var p' := p.RawIf(cfg.preserveComments, r).Bound();
            Lex(cfg, at, r + "\n" + tail, p) ==
            if r[0] == '#' && cfg.isConnect(p.cur) then ClientCommand
            else Lex(cfg, at + |r|, "\n" + tail, if cfg.preserveComments && p.cur == "" then p'.End() else p')
  {
    var t := r + "\n" + tail;
    Lookahead(r, tail);
    DelimiterAgrees(cfg, r, tail);
    assert StartsLineComment(t, p.cur == "");
    LineEndAgrees(r, tail);
    assert t[..|r|] == r && t[|r|..] == "\n" + tail;
  }

  lemma LineCommentAgrees(cfg: Config, s: Cursor, tail: string)
    requires cfg.Valid() && Sound(s) && s.rest != ""
    requires !IsEscape(cfg, s) && !IsDelimiter(cfg, s) && IsLineComment(s)
    ensures Agrees(cfg, s, LineCommentStep(cfg, s), tail)
  {
    LexLineComment(cfg, s.at, s.rest, tail, View(s));
    hide Lex;
    FlushView(s);
    var s1 := s.Flush();
    var s2 := s1.(c := s1.c.(buffer := s1.c.buffer + s.rest));
    assert s2.c.buffer + "" == s2.c.buffer;
    SendView(s2);
  }

  lemma BlockAgrees(cfg: Config, s: Cursor, tail: string)
    requires cfg.Valid() && Sound(s) && s.rest != ""
    requires !IsEscape(cfg, s) && !IsDelimiter(cfg, s) && !IsLineComment(s)
    requires s.c.inString == NUL && OpensBlock(s.rest)
    ensures Agrees(cfg, s, OpenStep(cfg, s), tail)
  {
    var t := s.rest + "\n" + tail;
    Lookahead(s.rest, tail);
    DelimiterAgrees(cfg, s.rest, tail);
    PutView(s, "/*");
    FlushView(s.Put("/*"));
    FlushView(s);
    if s.c.mlComment {
      OnwardShift(cfg, s.at, t, 2, Commented(cfg, t[2..], View(s).RawIf(cfg.preserveComments, "/*").Bound()));
    }
  }

  lemma CloseAgrees(cfg: Config, s: Cursor, tail: string)
    requires cfg.Valid() && Sound(s) && s.rest != ""
    requires s.c.mlComment && !s.ssComment && Closes(s.rest)
    ensures Agrees(cfg, s, CloseStep(cfg, s), tail)
  {
    Lookahead(s.rest, tail);
    PutView(s, "*/");
    FlushView(s.Put("*/").(needSpace := true));
    FlushView(s.(needSpace := true));
  }

  lemma PlainView(cfg: Config, s: Cursor)
    requires s.rest != "" && s.c.inString == NUL
    ensures var o, keep := PlainStep(cfg, s), !Dropped(cfg, s.c);
            if OpensServerSide(s.rest) then View(o.s) == View(s).(ss := true).AddIf(keep, '/')
            else if s.ssComment && Closes(s.rest) then View(o.s) == View(s).(ss := false).Raw("*").AddIf(keep, '/')
            else View(o.s) == View(s).AddIf(keep, s.rest[0])
  {
    if OpensServerSide(s.rest) {
      AddCharView(cfg, s.(ssComment := true), s.rest[0]);
    } else if s.ssComment && Closes(s.rest) {
      var s1 := s.(ssComment := false);
      PutView(s1, "*");
      AddCharView(cfg, s1.Put("*"), '/');
    } else {
      AddCharView(cfg, s, s.rest[0]);
    }
  }

  /** An ordinary character outside strings and comments. */
  lemma PlainOutside(cfg: Config, s: Cursor, tail: string)
    requires cfg.Valid() && Sound(s) && s.rest != ""
    requires s.c.inString == NUL && !s.c.mlComment && !SkipsSpace(cfg, s)
    requires !IsEscape(cfg, s) && !IsDelimiter(cfg, s) && !IsLineComment(s) && !OpensBlock(s.rest)
    ensures Agrees(cfg, s, PlainStep(cfg, s), tail)
  {
    var t := s.rest + "\n" + tail;
    Lookahead(s.rest, tail);
    DelimiterAgrees(cfg, s.rest, tail);
    assert !StartsLineComment(t, View(s).cur == "");
    PlainView(cfg, s);
  }

  /** An ordinary character inside a block comment. */
  lemma PlainInComment(cfg: Config, s: Cursor, tail: string)
    requires cfg.Valid() && Sound(s) && s.rest != ""
    requires s.c.mlComment && !OpensBlock(s.rest) && !(!s.ssComment && Closes(s.rest))
    ensures Agrees(cfg, s, PlainStep(cfg, s), tail)
  {
    hide Lex;
    var t, p := s.rest + "\n" + tail, View(s);
    Lookahead(s.rest, tail);
    PlainView(cfg, s);
    if Closes(s.rest) {
      OnwardShift(cfg, s.at, t, 2, Commented(cfg, t[2..], p.(ss := false).Raw("*").AddIf(cfg.preserveComments, '/')));
    } else {
      var p' := p.(ss := p.ss || OpensServerSide(t)).AddIf(cfg.preserveComments, t[0]);
      OnwardShift(cfg, s.at, t, 1, Commented(cfg, t[1..], p'));
    }
  }

  /** An ordinary character inside a string. */
  lemma PlainInString(cfg: Config, s: Cursor, tail: string)
    requires cfg.Valid() && Sound(s) && s.rest != ""
    requires s.c.inString != NUL && !IsEscape(cfg, s)
    ensures Agrees(cfg, s, PlainStep(cfg, s), tail)
  {
    hide Lex, OpensBlock, OpensServerSide, Closes;
    var t := s.rest + "\n" + tail;
    Lookahead(s.rest, tail);
    AddCharView(cfg, s, s.rest[0]);
    if s.rest[0] != s.c.inString {
      OnwardShift(cfg, s.at, t, 1, Quoted(cfg, t[1..], s.c.inString, View(s).Add(t[0])));
    }
  }

  /** Every step of the loop leaves the scan's result unchanged. */
  lemma StepAgrees(cfg: Config, s: Cursor, tail: string)
    requires cfg.Valid() && Sound(s) && s.rest != ""
    ensures Agrees(cfg, s, Step(cfg, s), tail)
  {
    hide Agrees, EscapeStep, DelimiterStep, LineCommentStep, OpenStep, CloseStep, PlainStep;
    if SkipsSpace(cfg, s) {
      SkipAgrees(cfg, s, tail);
    } else if IsEscape(cfg, s) {
      EscapeAgrees(cfg, s, tail);
    } else if IsDelimiter(cfg, s) {
      DelimiterStepAgrees(cfg, s, tail);
    } else if IsLineComment(s) {
      LineCommentAgrees(cfg, s, tail);
    } else if s.c.inString == NUL && OpensBlock(s.rest) {
      BlockAgrees(cfg, s, tail);
    } else if s.c.mlComment && !s.ssComment && Closes(s.rest) {
      CloseAgrees(cfg, s, tail);
    } else if s.c.mlComment {
      PlainInComment(cfg, s, tail);
    } else if s.c.inString == NUL {
      PlainOutside(cfg, s, tail);
    } else {
      PlainInString(cfg, s, tail);
    }
  }

  lemma {:induction false} LoopAgrees(cfg: Config, s: Cursor, tail: string)
    requires cfg.Valid() && Sound(s)
    ensures Agrees(cfg, s, Loop(cfg, s), tail)
    decreases |s.rest|
  {
    hide Resume, Step, View;
    if s.rest == "" {
      assert "" + "\n" + tail == "\n" + tail;
    } else {
      StepAgrees(cfg, s, tail);
      var o := Step(cfg, s);
      if o.Next? {
        LoopAgrees(cfg, o.s, tail);
      }
    }
  }

  // ----- lines -----

  function CarryView(c: Carry): Progress {
    Progress(false, false, "", c.sent, c.cuts, c.buffer)
  }

  /** What is carried from line to line. */
  predicate Carried(c: Carry) {
    Proper(c) && (c.inString != NUL ==> c.buffer != "")
  }

  predicate Open(c: Carry) {
    c.inString != NUL || c.mlComment
  }

  lemma EndOfLineView(cfg: Config, s: Cursor)
    ensures CarryView(EndOfLine(cfg, false, s)) == View(s).NewLine(Open(s.c), Dropped(cfg, s.c))
    ensures var c' := EndOfLine(cfg, false, s);
            (!s.Fresh() && c'.buffer != "" && cfg.isCommand(Probe(false, s, c'.buffer)))
            == View(s).IsCommand(cfg, Dropped(cfg, s.c))
  {
    hide IsDelimiterCommand;
    var cur := s.c.buffer + s.out;
    assert cur[..|cur| - |s.out|] == s.c.buffer;
    if !s.Fresh() {
      assert cur != "";
      assert cur + "" == cur;
      assert (cur + "\n")[..|cur + "\n"| - 1] == cur;
    }
  }

  /** Scan on at the start of a line, in a string or comment or outside. */
  function ResumeLine(cfg: Config, at: nat, t: string, c: Carry): Result
    requires cfg.Valid()
  {
    if Open(c) then Resume(cfg, at, t, c.inString, c.mlComment, CarryView(c)) else LexLine(cfg, at, t, CarryView(c))
  }

  /** The newline between two lines. */
  lemma NewlineAgrees(cfg: Config, at: nat, tail: string, q: char, ml: bool, p: Progress)
    requires cfg.Valid()
    ensures var dropped := ml && !cfg.preserveComments;
            var p' := p.NewLine(q != NUL || ml, dropped);
            Resume(cfg, at, "\n" + tail, q, ml, p) ==
            if p.IsCommand(cfg, dropped) then ClientCommand
            else if q != NUL || ml then Resume(cfg, at + 1, tail, q, ml, p')
            else LexLine(cfg, at + 1, tail, p')
  {
    hide LexLine;
    var t, dropped := "\n" + tail, ml && !cfg.preserveComments;
    assert t[1..] == tail;
    if !p.IsCommand(cfg, dropped) {
      if ml {
        OnwardShift(cfg, at, t, 1, Commented(cfg, tail, p.NewLine(true, dropped)));
      } else if q != NUL {
        OnwardShift(cfg, at, t, 1, Quoted(cfg, tail, q, p.NewLine(true, false)));
      }
    }
  }

  /** A line is cut as the scan cuts it: the same carried state, or a client command for both. */
  lemma AddLineAgrees(cfg: Config, at: nat, line: string, c: Carry, tail: string)
    requires cfg.Valid() && NUL !in line && '\n' !in line && Carried(c)
    ensures var before := Resume(cfg, at, line + "\n" + tail, c.inString, c.mlComment, CarryView(c));
            match AddLine(cfg, at, line, false, c)
            case LeftToCommand => before == ClientCommand
            case Done(c') => Carried(c') && ResumeLine(cfg, at + |line| + 1, tail, c') == before
  {
    hide Resume, LexLine, Loop, Agrees;
    var s := Cursor(at, line, "", false, false, c);
    assert c.buffer + "" == c.buffer;
    if At(line, 0) == NUL && c.buffer == "" {
      assert line + "\n" + tail == "\n" + tail;
      NewlineAgrees(cfg, at, tail, c.inString, c.mlComment, CarryView(c));
    } else {
      LoopAgrees(cfg, s, tail);
      LoopEnds(cfg, s, tail);
      var o := Loop(cfg, s);
      if o.Break? {
        EndOfLineView(cfg, o.s);
        NewlineAgrees(cfg, at + |line|, tail, o.s.c.inString, o.s.c.mlComment, View(o.s));
      }
    }
  }

  lemma LoopEnds(cfg: Config, s: Cursor, tail: string)
    requires cfg.Valid() && Agrees(cfg, s, Loop(cfg, s), tail)
    ensures match Loop(cfg, s)
            case Break(s') =>
              && Proper(s'.c) && Begun(s')
              && Resume(cfg, s.at + |s.rest|, "\n" + tail, s'.c.inString, s'.c.mlComment, View(s'))
                 == ResumeAt(cfg, s, tail)
            case Command => ResumeAt(cfg, s, tail) == ClientCommand
            case Next(_) => true
  {
    hide Resume, Loop;
  }

  /** The first line of a text. */
  lemma FirstLine(line: string, tail: string)
    requires '\n' !in line
    ensures (line + "\n" + tail)[..LineEnd(line + "\n" + tail)] == line
  {
    LineEndAgrees(line, tail);
  }

  lemma {:induction false} FeedAgrees(cfg: Config, at: nat, lines: seq<string>, c: Carry)
    requires cfg.Valid() && Carried(c)
    requires forall i | 0 <= i < |lines| :: NUL !in lines[i] && '\n' !in lines[i]
    ensures ResumeLine(cfg, at, Text(lines), c) ==
            match Feed(cfg, at, lines, c)
            case LeftToCommand => ClientCommand
            case Done(c') => Found(CarryView(c'))
    decreases |lines|
  {
    hide AddLine, Lex, Quoted, Commented, LineEnd;
    if lines == [] {
      NothingLeft(cfg, at, c);
    } else {
      var t := Text(lines);
      FirstLine(lines[0], Text(lines[1..]));
      AddLineAgrees(cfg, at, lines[0], c, Text(lines[1..]));
      if !LineCommand(cfg, lines[0], c) {
        var r := AddLine(cfg, at, lines[0], false, c);
        if r.Done? {
          FeedAgrees(cfg, at + |lines[0]| + 1, lines[1..], r.c);
        }
      }
    }
  }

  lemma NothingLeft(cfg: Config, at: nat, c: Carry)
    requires cfg.Valid()
    ensures ResumeLine(cfg, at, "", c) == Found(CarryView(c))
  {
  }

  /** The main result. For every text and every setting, with comments kept or not: feeding the text line by line
      meets a client command exactly if one scan of the whole text does, and otherwise the delimiter branch is
      taken at exactly the offsets where the scan cuts, and the statements sent and what is left in the buffer are
      character for character those of the scan. */
  lemma LinesFindTheStatements(cfg: Config, lines: seq<string>)
    requires cfg.Valid()
    requires forall i | 0 <= i < |lines| :: NUL !in lines[i] && '\n' !in lines[i]
    ensures Statements(cfg, Text(lines)) ==
            match Feed(cfg, 0, lines, Carry(NUL, false, "", [], []))
            case LeftToCommand => ClientCommand
            case Done(c) => Found(Progress(false, false, "", c.sent, c.cuts, c.buffer))
  {
    FeedAgrees(cfg, 0, lines, Carry(NUL, false, "", [], []));
  }

  /** Settings under which no text is a client command: no short command is known, an unknown one is no
      error, and nothing reads as a long command. */
  ghost predicate NoCommands(cfg: Config) {
    && cfg.shortCommands == {} && !cfg.stopOnError
    && forall s :: !cfg.isCommand(s) && !cfg.isConnect(s)
  }

  lemma {:induction false} LoopFinishes(cfg: Config, s: Cursor)
    requires cfg.Valid() && NoCommands(cfg)
    ensures Loop(cfg, s).Break?
    decreases |s.rest|
  {
    if s.rest != "" && Step(cfg, s).Next? {
      LoopFinishes(cfg, Step(cfg, s).s);
    }
  }

  /** Then every text is read to its end, with comments kept or not. */
  lemma {:induction false} FeedFinishes(cfg: Config, at: nat, lines: seq<string>, c: Carry)
    requires cfg.Valid() && NoCommands(cfg)
    ensures Feed(cfg, at, lines, c).Done?
    decreases |lines|
  {
    hide Loop, EndOfLine;
    if lines != [] {
      LoopFinishes(cfg, Cursor(at, lines[0], "", false, false, c));
      FeedFinishes(cfg, at + |lines[0]| + 1, lines[1..], AddLine(cfg, at, lines[0], false, c).c);
    }
  }
}
