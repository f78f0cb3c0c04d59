/**
 `add_line` of client/mysql.cc as it is written: a line edited in place through a read cursor `pos`
 and a write cursor `out`. Every array access below is checked, so no branch reads or writes outside
 the line and its terminating NUL, and `out` never passes `pos`; the runs of client commands, whose
 effects on the statement buffer are unknown, are included.
 */
module StatementSplitter {
  import opened Common
  import opened StatementLine

  /** The local variables of `add_line` and the state it is handed by reference. */
  datatype Locals = Locals(pos: nat, out: nat, needSpace: bool, ssComment: bool, c: Carry)

  /** The cursor that the locals stand for in a line `a` that starts at offset `base` of the input. */
  function Cur(a: seq<char>, n: nat, base: nat, v: Locals): Cursor
    requires v.out <= v.pos <= n < |a|
  {
    Cursor(base + v.pos, a[v.pos..n], a[..v.out], v.needSpace, v.ssComment, v.c)
  }

  /** The carried state is never both in a string and in a block comment. */
  predicate Apart(c: Carry) {
    !(c.inString != NUL && c.mlComment)
  }

  /** The write cursor does not pass the read cursor, with room for a space that is still owed,
      and what is unread still ends in the NUL. */
  predicate Inv(a: seq<char>, n: nat, v: Locals) {
    v.out <= v.pos <= n < |a| && a[n] == NUL && (v.needSpace ==> v.out < v.pos) && Apart(v.c)
  }

  lemma CurRead(a: seq<char>, n: nat, base: nat, v: Locals, k: nat)
    requires v.out <= v.pos && v.pos + k <= n < |a|
    ensures Cur(a, n, base, v.(pos := v.pos + k)) == Cur(a, n, base, v).Read(k)
  {
    assert a[v.pos + k..n] == a[v.pos..n][k..];
  }

  /** `*out++= x`, into the part of the line that has been read. */
  method Put(line: array<char>, ghost n: nat, ghost base: nat, v: Locals, x: char) returns (w: Locals)
    requires v.out < v.pos <= n < line.Length
    modifies line
    ensures w == v.(out := v.out + 1) && line[n] == old(line[n])
    ensures Cur(line[..], n, base, w) == Cur(old(line[..]), n, base, v).Put([x])
  {
    line[v.out] := x;
    w := v.(out := v.out + 1);
    assert line[..][..w.out] == old(line[..])[..v.out] + [x];
    assert line[..][v.pos..n] == old(line[..])[v.pos..n];
  }

  method PutTwo(line: array<char>, ghost n: nat, ghost base: nat, v: Locals, x: char, y: char) returns (w: Locals)
    requires v.out + 1 < v.pos <= n < line.Length
    modifies line
    ensures w == v.(out := v.out + 2) && line[n] == old(line[n])
    ensures Cur(line[..], n, base, w) == Cur(old(line[..]), n, base, v).Put([x, y])
  {
    ghost var out := line[..][..v.out];
    w := Put(line, n, base, v, x);
    w := Put(line, n, base, w, y);
    assert out + [x] + [y] == out + [x, y];
  }

  /** What has been written at the front of the line goes to the statement buffer. */
  method Flush(line: array<char>, ghost n: nat, ghost base: nat, v: Locals) returns (w: Locals)
    requires v.out <= v.pos <= n < line.Length
    ensures w == v.(out := 0, c := v.c.(buffer := w.c.buffer))
    ensures Cur(line[..], n, base, w) == Cur(line[..], n, base, v).Flush()
  {
    w := v;
    if v.out != 0 {
      w := v.(out := 0, c := v.c.(buffer := v.c.buffer + line[..v.out]));
    }
    assert line[..v.out] == line[..][..v.out];
    assert v.c.buffer + "" == v.c.buffer;
  }

  // The tests that look ahead; the terminating NUL stops each of them at the end of the line.

  predicate HereIsBlock(line: array<char>, n: nat, p: nat)
    reads line
    requires p < n < line.Length && line[n] == NUL
    ensures HereIsBlock(line, n, p) == OpensBlock(line[..][p..n])
  {
    && line[p] == '/' && line[p + 1] == '*'
    && !(line[p + 2] == '!' || line[p + 2] == '+' || (line[p + 2] == 'M' && line[p + 3] == '!'))
  }

  predicate HereIsServerSide(line: array<char>, n: nat, p: nat)
    reads line
    requires p < n < line.Length && line[n] == NUL
    ensures HereIsServerSide(line, n, p) == OpensServerSide(line[..][p..n])
  {
    line[p] == '/' && line[p + 1] == '*' && (line[p + 2] == '!' || line[p + 2] == '+')
  }

  predicate HereCloses(line: array<char>, n: nat, p: nat)
    reads line
    requires p < n < line.Length && line[n] == NUL
    ensures HereCloses(line, n, p) == Closes(line[..][p..n])
  {
    line[p] == '*' && line[p + 1] == '/'
  }

  predicate HereIsTrailingComment(line: array<char>, n: nat, p: nat)
    reads line
    requires p <= n < line.Length && line[n] == NUL
    ensures HereIsTrailingComment(line, n, p) == IsTrailingComment(line[..][p..n])
  {
    line[p] == '#' || (line[p] == '-' && line[p + 1] == '-' && IsSpace(line[p + 2]))
  }

  predicate HereIsLineComment(line: array<char>, n: nat, v: Locals)
    reads line
    requires v.out <= v.pos < n < line.Length && line[n] == NUL
    ensures forall base: nat :: HereIsLineComment(line, n, v) == IsLineComment(Cur(line[..], n, base, v))
  {
    var p := v.pos;
    && !v.c.mlComment && v.c.inString == NUL
    && (|| line[p] == '#'
        || (&& line[p] == '-' && line[p + 1] == '-'
            && (IsSpace(line[p + 2]) || line[p + 2] == NUL || (v.c.buffer == "" && v.out == 0))))
  }

  /** `is_prefix(pos, delimiter)` */
  method HereIsDelimiter(cfg: Config, line: array<char>, n: nat, p: nat) returns (b: bool)
    requires cfg.Valid() && p < n < line.Length && line[n] == NUL
    ensures b == (cfg.delimiter <= line[..][p..n])
  {
    var i := 0;
    while i < |cfg.delimiter|
      invariant i <= |cfg.delimiter| && p + i <= n
      invariant forall j | 0 <= j < i :: line[..][p..n][j] == cfg.delimiter[j]
    {
      if line[p + i] != cfg.delimiter[i] {
        return false;
      }
      i := i + 1;
    }
    return true;
  }

  /** The effect of a client command: it may send or change the statement, set a new delimiter, or end the client. */
  method RunCommand(cfg: Config, c: Carry) returns (quit: bool, cfg': Config, c': Carry)
    requires cfg.Valid()
    ensures cfg'.Valid() && c'.inString == c.inString && c'.mlComment == c.mlComment
  {
    quit := *;
    var buffer: string, sent: seq<string>, d: string := *, *, *;
    c' := c.(buffer := buffer, sent := sent);
    cfg' := cfg;
    if d != "" && forall i | 0 <= i < |d| :: d[i] != NUL && d[i] != '\n' {
      cfg' := cfg.(delimiter := d);
    }
  }

  method Escape(cfg: Config, line: array<char>, n: nat, ghost base: nat, v: Locals)
    returns (stop: bool, command: bool, w: Locals)
    requires Inv(line[..], n, v) && v.pos < n && IsEscape(cfg, Cur(line[..], n, base, v))
    modifies line
    ensures Inv(line[..], n, w) && w.c == v.c
    ensures match EscapeStep(cfg, Cur(old(line[..]), n, base, v))
            case Break(s) => stop && !command && w == v && Cur(line[..], n, base, w) == s
            case Next(s) => !stop && !command && v.pos < w.pos && Cur(line[..], n, base, w) == s
            case Command => !stop && command && w == v && v.pos + 1 < n
  {
    stop, command, w := false, false, v;
    ghost var start := Cur(line[..], n, base, v);
    var x := line[v.pos + 1];
    assert x == At(start.rest, 1);
    if x == NUL {
      stop := true;
    } else if v.c.inString == NUL && x != 'N' && (x in cfg.shortCommands || cfg.stopOnError) {
      command := true;
    } else {
      CurRead(line[..], n, base, v, 2);
      w := v.(pos := v.pos + 2);
      w := PutTwo(line, n, base, w, '\\', x);
    }
  }

  /** The cursor with the spaces in front of it copied. */
  ghost function SpacesCopied(s: Cursor): Cursor {
    s.Put(s.rest[..LeadingSpaces(s.rest)]).Read(LeadingSpaces(s.rest))
  }

  lemma CopiesSpace(s: Cursor)
    ensures s.rest == "" || !IsSpace(s.rest[0]) ==> SpacesCopied(s) == s
    ensures s.rest != "" && IsSpace(s.rest[0]) ==> SpacesCopied(s) == SpacesCopied(s.Read(1).Put([s.rest[0]]))
  {
    var r, k := s.rest, LeadingSpaces(s.rest);
    if k > 0 {
      assert r[..k] == [r[0]] + r[1..][..k - 1] && r[k..] == r[1..][k - 1..];
      assert s.out + ([r[0]] + r[1..][..k - 1]) == s.out + [r[0]] + r[1..][..k - 1];
    } else {
      assert s.out + r[..0] == s.out && r[0..] == r;
    }
  }

  method CopyOne(line: array<char>, n: nat, ghost base: nat, v: Locals) returns (w: Locals)
    requires v.out <= v.pos < n < line.Length
    modifies line
    ensures w == v.(pos := v.pos + 1, out := v.out + 1) && line[n] == old(line[n])
    ensures Cur(line[..], n, base, w) == Cur(old(line[..]), n, base, v).Read(1).Put([old(line[v.pos])])
  {
    CurRead(line[..], n, base, v, 1);
    w := Put(line, n, base, v.(pos := v.pos + 1), line[v.pos]);
  }

  /** Copying the spaces after a delimiter. */
  method CopySpaces(line: array<char>, n: nat, ghost base: nat, v: Locals) returns (w: Locals)
    requires v.out < v.pos <= n < line.Length && line[n] == NUL
    modifies line
    ensures w == v.(pos := w.pos, out := w.out) && v.pos <= w.pos && w.out < w.pos <= n && line[n] == NUL
    ensures Cur(line[..], n, base, w) == SpacesCopied(Cur(old(line[..]), n, base, v))
  {
    hide SpacesCopied;
    w := v;
    while IsSpace(line[w.pos])
      invariant w == v.(pos := w.pos, out := w.out) && v.pos <= w.pos && w.out < w.pos <= n && line[n] == NUL
      invariant SpacesCopied(Cur(line[..], n, base, w)) == SpacesCopied(Cur(old(line[..]), n, base, v))
      decreases n - w.pos
    {
      CopiesSpace(Cur(line[..], n, base, w));
      w := CopyOne(line, n, base, w);
    }
    CopiesSpace(Cur(line[..], n, base, w));
  }

  /** Past the delimiter and its spaces, with everything accepted so far in the buffer. */
  method TakeSpaces(cfg: Config, line: array<char>, n: nat, ghost base: nat, v: Locals) returns (w: Locals)
    requires cfg.Valid() && Inv(line[..], n, v) && cfg.delimiter <= line[..][v.pos..n]
    modifies line
    ensures w == v.(pos := w.pos, out := 0, c := v.c.(buffer := w.c.buffer)) && v.pos < w.pos <= n && line[n] == NUL
    ensures Cur(line[..], n, base, w) == AfterSpaces(cfg, Cur(old(line[..]), n, base, v))
  {
    hide LeadingSpaces;
    ghost var s1 := Cur(line[..], n, base, v).Read(|cfg.delimiter|);
    CurRead(line[..], n, base, v, |cfg.delimiter|);
    w := v.(pos := v.pos + |cfg.delimiter|);
    if cfg.preserveComments {
      w := CopySpaces(line, n, base, w);
    } else {
      assert s1.out + s1.rest[..0] == s1.out;
    }
    w := Flush(line, n, base, w);
  }

  /** The buffer after the delimiter branch has taken in the spaces and comment behind the delimiter. */
  method TakeStatement(cfg: Config, line: array<char>, n: nat, ghost base: nat, v: Locals) returns (w: Locals)
    requires cfg.Valid() && Inv(line[..], n, v) && cfg.delimiter <= line[..][v.pos..n]
    modifies line
    ensures w == v.(pos := w.pos, out := 0, c := v.c.(buffer := w.c.buffer)) && v.pos < w.pos <= n && line[n] == NUL
    ensures Cur(line[..], n, base, w) == TakeTrailing(cfg, AfterSpaces(cfg, Cur(old(line[..]), n, base, v)))
  {
    hide CString, AfterSpaces, IsTrailingComment;
    w := TakeSpaces(cfg, line, n, base, v);
    if cfg.preserveComments && HereIsTrailingComment(line, n, w.pos) {
      w := TakeComment(line, n, base, w);
    }
  }

  method TakeComment(line: array<char>, n: nat, ghost base: nat, v: Locals) returns (w: Locals)
    requires v.out <= v.pos <= n < line.Length
    ensures var k := CString(line[..][v.pos..n]);
            && w == v.(pos := v.pos + |k|, c := v.c.(buffer := v.c.buffer + k)) && w.pos <= n
            && Cur(line[..], n, base, w)
               == var s := Cur(line[..], n, base, v); s.(c := s.c.(buffer := s.c.buffer + k)).Read(|k|)
  {
    assert line[v.pos..n] == line[..][v.pos..n];
    var k := CString(line[v.pos..n]);
    CurRead(line[..], n, base, v, |k|);
    w := v.(pos := v.pos + |k|, c := v.c.(buffer := v.c.buffer + k));
  }

  /** The delimiter ends a statement: it is sent, or run as a client command. */
  method Delimiter(cfg: Config, line: array<char>, n: nat, base: nat, v: Locals)
    returns (quit: bool, cfg': Config, w: Locals)
    requires cfg.Valid() && Inv(line[..], n, v) && cfg.delimiter <= line[..][v.pos..n]
    modifies line
    ensures cfg'.Valid() && Inv(line[..], n, w) && v.pos < w.pos
    ensures match DelimiterStep(cfg, Cur(old(line[..]), n, base, v))
            case Next(s) => !quit && cfg' == cfg && Cur(line[..], n, base, w) == s
            case Break(_) => false
            case Command => true
  {
    hide AfterSpaces, TakeTrailing;
    cfg', quit := cfg, false;
    w := TakeStatement(cfg, line, n, base, v);
    w := w.(c := w.c.(cuts := w.c.cuts + [base + v.pos]));
    if cfg.isCommand(w.c.buffer) {
      var c: Carry;
      quit, cfg', c := RunCommand(cfg, w.c);
      w := w.(c := c.(buffer := ""));
    } else {
      w := w.(c := w.c.(sent := w.c.sent + [w.c.buffer], buffer := ""));
    }
  }

  method LineComment(cfg: Config, line: array<char>, n: nat, ghost base: nat, v: Locals)
    returns (quit: bool, cfg': Config, w: Locals)
    requires cfg.Valid() && Inv(line[..], n, v) && v.pos < n
    ensures cfg'.Valid() && Inv(line[..], n, w) && w.pos == v.pos
    ensures match LineCommentStep(cfg, Cur(line[..], n, base, v))
            case Break(s) => !quit && cfg' == cfg && Cur(line[..], n, base, w) == s
            case Next(_) => false
            case Command => true
  {
    hide CString;
    cfg', quit := cfg, false;
    var comment := CString(line[v.pos..n]);
    assert comment == CString(line[..][v.pos..n]) by { assert line[v.pos..n] == line[..][v.pos..n]; }
    w := Flush(line, n, base, v);
    var buffer := w.c.buffer;
    ghost var s1 := Cur(line[..], n, base, v).Flush();
    assert s1.rest == Cur(line[..], n, base, v).rest && s1.c.buffer == buffer;
    if line[v.pos] == '#' && cfg.isConnect(buffer) {
      var c: Carry;
      quit, cfg', c := RunCommand(cfg, w.c.(buffer := buffer + comment));
      w := w.(c := c);
    } else if cfg.preserveComments {
      if buffer == "" {
        w := w.(c := w.c.(sent := w.c.sent + [buffer + comment], buffer := ""));
      } else {
        w := w.(c := w.c.(buffer := buffer + comment));
      }
    }
  }

  /** The two characters that open or close a block comment. */
  method Bracket(cfg: Config, line: array<char>, n: nat, ghost base: nat, v: Locals, open: bool) returns (w: Locals)
    requires Inv(line[..], n, v) && v.pos < n
    requires var s := Cur(line[..], n, base, v);
             if open then v.c.inString == NUL && OpensBlock(s.rest) else v.c.mlComment && Closes(s.rest)
    modifies line
    ensures Inv(line[..], n, w) && v.pos < w.pos
    ensures var s := Cur(old(line[..]), n, base, v);
            (if open then OpenStep(cfg, s) else CloseStep(cfg, s)) == Next(Cur(line[..], n, base, w))
  {
    ghost var start := Cur(line[..], n, base, v);
    assert v.pos + 1 < n && [line[v.pos], line[v.pos + 1]] == [start.rest[0], start.rest[1]];
    var x, y := line[v.pos], line[v.pos + 1];
    hide OpensBlock, Closes;
    CurRead(line[..], n, base, v, 2);
    w := v.(pos := v.pos + 2);
    if cfg.preserveComments {
      w := PutTwo(line, n, base, w, x, y);
    }
    w := w.(c := w.c.(mlComment := open));
    w := Flush(line, n, base, w);
    if !open {
      w := w.(needSpace := true);
    }
  }

  /** `x` is written, after the space that may be owed, and the quote state follows it. */
  method AddFound(cfg: Config, line: array<char>, n: nat, ghost base: nat, v: Locals, x: char) returns (w: Locals)
    requires Apart(v.c) && v.out < v.pos <= n < line.Length && line[n] == NUL && (v.needSpace ==> v.out + 1 < v.pos)
    modifies line
    ensures Inv(line[..], n, w) && w.pos == v.pos
    ensures Cur(line[..], n, base, w) == AddChar(cfg, Cur(old(line[..]), n, base, v), x)
  {
    w := v;
    if x == w.c.inString {
      w := w.(c := w.c.(inString := NUL));
    } else if !w.c.mlComment && w.c.inString == NUL && IsQuote(x) {
      w := w.(c := w.c.(inString := x));
    }
    if !v.c.mlComment || cfg.preserveComments {
      if v.needSpace && !IsSpace(x) {
        w := PutTwo(line, n, base, w.(needSpace := false), ' ', x);
      } else {
        w := Put(line, n, base, w.(needSpace := false), x);
      }
    }
  }

  method CloseServerSide(cfg: Config, line: array<char>, n: nat, ghost base: nat, v: Locals) returns (w: Locals)
    requires Inv(line[..], n, v) && v.pos + 1 < n
    modifies line
    ensures Inv(line[..], n, w) && v.pos < w.pos
    ensures var s := Cur(old(line[..]), n, base, v);
            AddChar(cfg, s.(ssComment := false).Put("*"), '/').rest == s.rest
            && Cur(line[..], n, base, w) == AddChar(cfg, s.(ssComment := false).Put("*"), '/').Read(2)
  {
    hide AddChar;
    CurRead(line[..], n, base, v, 2);
    w := v.(ssComment := false, pos := v.pos + 2);
    w := Put(line, n, base, w, '*');
    w := AddFound(cfg, line, n, base, w, '/');
    AddCharReads(cfg, Cur(old(line[..]), n, base, v.(ssComment := false)).Put("*"), '/', 2);
  }

  /** Add the character at the cursor and go past it. */
  method AddHere(cfg: Config, line: array<char>, n: nat, ghost base: nat, v: Locals, ss: bool) returns (w: Locals)
    requires Inv(line[..], n, v) && v.pos < n
    modifies line
    ensures Inv(line[..], n, w) && v.pos < w.pos
    ensures var s := Cur(old(line[..]), n, base, v).(ssComment := ss);
            s.rest != "" && AddChar(cfg, s, s.rest[0]).rest == s.rest
            && Cur(line[..], n, base, w) == AddChar(cfg, s, s.rest[0]).Read(1)
  {
    hide AddChar;
    var v1 := v.(ssComment := ss);
    CurRead(line[..], n, base, v1, 1);
    w := AddFound(cfg, line, n, base, v1.(pos := v.pos + 1), line[v.pos]);
    AddCharReads(cfg, Cur(old(line[..]), n, base, v1), old(line[v.pos]), 1);
  }

  method Plain(cfg: Config, line: array<char>, n: nat, ghost base: nat, v: Locals) returns (w: Locals)
    requires Inv(line[..], n, v) && v.pos < n
    modifies line
    ensures Inv(line[..], n, w) && v.pos < w.pos
    ensures PlainStep(cfg, Cur(old(line[..]), n, base, v)) == Next(Cur(line[..], n, base, w))
  {
    hide AddChar, OpensServerSide, HereIsServerSide;
    if v.c.inString == NUL && HereIsServerSide(line, n, v.pos) {
      w := AddHere(cfg, line, n, base, v, true);
    } else if v.c.inString == NUL && v.ssComment && HereCloses(line, n, v.pos) {
      w := CloseServerSide(cfg, line, n, base, v);
    } else {
      w := AddHere(cfg, line, n, base, v, v.ssComment);
    }
  }

  lemma AddCharReads(cfg: Config, s: Cursor, x: char, k: nat)
    requires k <= |s.rest|
    ensures AddChar(cfg, s, x).rest == s.rest
    ensures AddChar(cfg, s.Read(k), x) == AddChar(cfg, s, x).Read(k)
  {
  }

  /** Where the parameters of a client command end: at the end of the server-side comment it stands in,
      or else at a delimiter; at a NUL in any case. */
  ghost predicate ParametersEnd(cfg: Config, a: seq<char>, n: nat, ssComment: bool, k: nat)
    requires k <= n < |a|
  {
    a[k] == NUL || if ssComment then Closes(a[k..n]) else cfg.delimiter <= a[k..n]
  }

  /** The first such place from `k` on. */
  ghost function FirstEnd(cfg: Config, a: seq<char>, n: nat, ssComment: bool, k: nat): (e: nat)
    requires k <= n < |a| && a[n] == NUL
    ensures k <= e <= n && ParametersEnd(cfg, a, n, ssComment, e)
    ensures forall j | k <= j < e :: !ParametersEnd(cfg, a, n, ssComment, j)
    decreases n - k
  {
    if ParametersEnd(cfg, a, n, ssComment, k) then k else FirstEnd(cfg, a, n, ssComment, k + 1)
  }

  /** Past the parameters of a client command: to the first place where they end, and there past a
      delimiter. The result is the position of the next character to read. */
  method SkipParameters(cfg: Config, line: array<char>, n: nat, p: nat, ssComment: bool) returns (q: nat)
    requires cfg.Valid() && p < n < line.Length && line[n] == NUL
    ensures p < q <= n
    ensures var e := FirstEnd(cfg, line[..], n, ssComment, p + 1);
            q == if line[e] == NUL || ssComment then e else e + |cfg.delimiter|
  {
    q := p + 1;
    if ssComment {
      while line[q] != NUL && !HereCloses(line, n, q)
        invariant p < q <= n && FirstEnd(cfg, line[..], n, ssComment, p + 1) == FirstEnd(cfg, line[..], n, ssComment, q)
        decreases n - q
      {
        q := q + 1;
      }
    } else {
      while line[q] != NUL
        invariant p < q <= n && FirstEnd(cfg, line[..], n, ssComment, p + 1) == FirstEnd(cfg, line[..], n, ssComment, q)
        decreases n - q
      {
        var found := HereIsDelimiter(cfg, line, n, q);
        if found {
          return q + |cfg.delimiter|;
        }
        q := q + 1;
      }
    }
  }

  /** A one-character client command, or an unknown one when errors end the client. */
  method ShortCommand(cfg: Config, line: array<char>, n: nat, ghost base: nat, v: Locals)
    returns (quit: bool, cfg': Config, w: Locals)
    requires cfg.Valid() && Inv(line[..], n, v) && v.pos + 1 < n
    ensures cfg'.Valid() && Inv(line[..], n, w) && v.pos <= w.pos && (!quit ==> v.pos < w.pos)
  {
    cfg', w := cfg, v;
    if line[v.pos + 1] !in cfg.shortCommands {
      quit := true;
      return;
    }
    w := Flush(line, n, base, v);
    var c: Carry;
    quit, cfg', c := RunCommand(cfg, w.c);
    w := w.(c := c);
    var next := v.pos + 2;
    var takesParams: bool := *;
    if takesParams {
      next := SkipParameters(cfg', line, n, v.pos + 1, v.ssComment);
    }
    w := w.(pos := next);
  }

  /** One iteration of the loop. */
  method Iterate(cfg: Config, line: array<char>, n: nat, base: nat, v: Locals)
    returns (quit: bool, stop: bool, cfg': Config, w: Locals)
    requires cfg.Valid() && Inv(line[..], n, v) && v.pos < n
    modifies line
    ensures cfg'.Valid() && Inv(line[..], n, w) && v.pos <= w.pos && (!quit && !stop ==> v.pos < w.pos)
    ensures match Step(cfg, Cur(old(line[..]), n, base, v))
            case Next(s) => !quit && !stop && cfg' == cfg && Cur(line[..], n, base, w) == s
            case Break(s) => !quit && stop && cfg' == cfg && Cur(line[..], n, base, w) == s
            case Command => true
  {
    hide EscapeStep, DelimiterStep, LineCommentStep, OpenStep, CloseStep, PlainStep, OpensBlock, Closes;
    quit, stop, cfg', w := false, false, cfg, v;
    ghost var start := Cur(line[..], n, base, v);
    var x := line[v.pos];
    assert start.rest != "" && start.rest[0] == x;
    if !cfg.preserveComments && IsSpace(x) && v.out == 0 && v.c.buffer == "" {
      CurRead(line[..], n, base, v, 1);
      w := v.(pos := v.pos + 1);
      return;
    }
    if !v.c.mlComment && x == '\\' && Escapes(cfg, v.c.inString) {
      var command: bool;
      stop, command, w := Escape(cfg, line, n, base, v);
      if command {
        quit, cfg', w := ShortCommand(cfg, line, n, base, w);
      }
      return;
    }
    if !v.c.mlComment && v.c.inString == NUL {
      var delimiter := HereIsDelimiter(cfg, line, n, v.pos);
      if delimiter {
        quit, cfg', w := Delimiter(cfg, line, n, base, v);
        return;
      }
    }
    quit, stop, cfg', w := IterateRest(cfg, line, n, base, v);
  }

  /** The branches behind those for skipped space, escapes and delimiters. */
  method IterateRest(cfg: Config, line: array<char>, n: nat, base: nat, v: Locals)
    returns (quit: bool, stop: bool, cfg': Config, w: Locals)
    requires cfg.Valid() && Inv(line[..], n, v) && v.pos < n
    requires var s := Cur(line[..], n, base, v); !SkipsSpace(cfg, s) && !IsEscape(cfg, s) && !IsDelimiter(cfg, s)
    modifies line
    ensures cfg'.Valid() && Inv(line[..], n, w) && v.pos <= w.pos && (!quit && !stop ==> v.pos < w.pos)
    ensures match Step(cfg, Cur(old(line[..]), n, base, v))
            case Next(s) => !quit && !stop && cfg' == cfg && Cur(line[..], n, base, w) == s
            case Break(s) => !quit && stop && cfg' == cfg && Cur(line[..], n, base, w) == s
            case Command => true
  {
    hide EscapeStep, DelimiterStep, LineCommentStep, OpenStep, CloseStep, PlainStep, OpensBlock, Closes;
    quit, stop, cfg', w := false, false, cfg, v;
    if HereIsLineComment(line, n, v) {
      quit, cfg', w := LineComment(cfg, line, n, base, v);
      stop := true;
    } else if v.c.inString == NUL && HereIsBlock(line, n, v.pos) {
      w := Bracket(cfg, line, n, base, v, true);
    } else if v.c.mlComment && !v.ssComment && HereCloses(line, n, v.pos) {
      w := Bracket(cfg, line, n, base, v, false);
    } else {
      w := Plain(cfg, line, n, base, v);
    }
  }

  /** The whole loop. */
  method Scan(cfg: Config, line: array<char>, n: nat, base: nat, c: Carry)
    returns (quit: bool, cfg': Config, v: Locals)
    requires cfg.Valid() && Apart(c) && n < line.Length && line[n] == NUL
    modifies line
    ensures cfg'.Valid() && Inv(line[..], n, v)
    ensures match Loop(cfg, Cursor(base, old(line[..n]), "", false, false, c))
            case Break(s) => !quit && cfg' == cfg && Cur(line[..], n, base, v) == s
            case _ => true
  {
    hide Step;
    v, cfg', quit := Locals(0, 0, false, false, c), cfg, false;
    var stop := false;
    ghost var start := Cursor(base, line[..n], "", false, false, c);
    assert start == Cur(line[..], n, base, v) by { assert line[..n] == line[..][0..n]; }
    while v.pos < n && !stop
      invariant cfg'.Valid() && Inv(line[..], n, v)
      invariant !Loop(cfg, start).Break? || cfg' == cfg
      invariant !Loop(cfg, start).Break? ||
                (Loop(cfg, start) ==
                 if stop then Break(Cur(line[..], n, base, v)) else Loop(cfg, Cur(line[..], n, base, v)))
      decreases n - v.pos, !stop
    {
      quit, stop, cfg', v := Iterate(cfg', line, n, base, v);
      if quit {
        return;
      }
    }
  }

  /** What follows the loop: what is left on the line goes to the buffer, which is then checked for a command. */
  method FinishLine(cfg: Config, line: array<char>, n: nat, ghost base: nat, truncated: bool, v: Locals)
    returns (quit: bool, cfg': Config, c': Carry)
    requires cfg.Valid() && Inv(line[..], n, v)
    modifies line
    ensures cfg'.Valid() && Apart(c')
    ensures var s := Cur(old(line[..]), n, base, v);
            var r := EndOfLine(cfg, truncated, s);
            (!s.Fresh() && r.buffer != "" && cfg.isCommand(Probe(truncated, s, r.buffer)))
            || (!quit && cfg' == cfg && c' == r)
  {
    hide IsDelimiterCommand;
    quit, cfg', c' := false, cfg, v.c;
    if v.out != 0 || v.c.buffer != "" {
      ghost var s := Cur(line[..], n, base, v);
      var addN := !truncated && (!IsDelimiterCommand(line[..v.out]) || v.c.inString != NUL || v.c.mlComment);
      assert line[..v.out] == s.out;
      var length := v.out;
      if addN {
        line[length] := '\n';
        length := length + 1;
      }
      if !v.c.mlComment || cfg.preserveComments {
        c' := v.c.(buffer := v.c.buffer + line[..length]);
        assert line[..length] == s.out + if addN then "\n" else "";
        assert c'.buffer == s.c.buffer + s.out + if addN then "\n" else "";
      }
      if c'.buffer != "" {
        var probe := if addN then c'.buffer[..|c'.buffer| - 1] else c'.buffer;
        if cfg.isCommand(probe) {
          quit, cfg', c' := RunCommand(cfg, c');
          c' := c'.(buffer := "");
        }
      }
    }
  }

  /** `add_line` */
  method AddLineInPlace(cfg: Config, line: array<char>, n: nat, base: nat, truncated: bool, c: Carry)
    returns (quit: bool, cfg': Config, c': Carry)
    requires cfg.Valid() && Apart(c) && n < line.Length && line[n] == NUL
    modifies line
    ensures cfg'.Valid() && Apart(c')
    ensures match AddLine(cfg, base, old(line[..n]), truncated, c)
            case Done(r) => !quit && cfg' == cfg && c' == r
            case LeftToCommand => true
  {
    hide Loop, EndOfLine, Probe;
    quit, cfg', c' := false, cfg, c;
    assert line[0] == At(line[..n], 0);
    if line[0] == NUL && c.buffer == "" {
      return;
    }
    var v: Locals;
    quit, cfg', v := Scan(cfg, line, n, base, c);
    c' := v.c;
    if quit {
      return;
    }
    quit, cfg', c' := FinishLine(cfg', line, n, base, truncated, v);
  }
}
