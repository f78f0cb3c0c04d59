/**
 The batch line reader of client/readline.cc: a buffer that is shifted and grown over a `read()`
 which may return fewer bytes than asked for. The specification is the list of lines of the stream.
 */
module LineReader {
  import opened Common

  const IO_SIZE: nat := 4096

  // ----- the lines of a stream -----

  /** The offset of the first newline, or the length. */
  function NewlineAt(s: string): (n: nat)
    ensures n <= |s|
    ensures n < |s| ==> s[n] == '\n'
    ensures '\n' !in s[..n]
  {
    if s == "" || s[0] == '\n' then 0 else 1 + NewlineAt(s[1..])
  }

  /** Outside binary mode a carriage return before the newline goes too. */
  function Chomp(s: string, binary: bool): string {
    if !binary && s != "" && s[|s| - 1] == '\r' then s[..|s| - 1] else s
  }

  /** The first line of a non-empty stream; a last line without a newline is returned whole. */
  function FirstLine(s: string, binary: bool): string {
    var n := NewlineAt(s);
    if n < |s| then Chomp(s[..n], binary) else s
  }

  function AfterFirstLine(s: string): string {
    var n := NewlineAt(s);
    if n < |s| then s[n + 1..] else ""
  }

  lemma AfterFirstLineShorter(s: string)
    requires s != ""
    ensures |AfterFirstLine(s)| < |s|
  {
  }

  function Lines(s: string, binary: bool): seq<string>
    decreases |s|
  {
    if s == "" then [] else
      AfterFirstLineShorter(s);
      [FirstLine(s, binary)] + Lines(AfterFirstLine(s), binary)
  }

  /** `piece` is the first line of `s`, with its newline if it has one, and `rest` is what follows it. */
  predicate IsLine(s: string, piece: string, terminated: bool, rest: string) {
    && s != ""
    && var k := NewlineAt(s);
    && terminated == (k < |s|)
    && piece == (if terminated then s[..k + 1] else s)
    && rest == AfterFirstLine(s)
  }

  lemma LineFound(s: string, piece: string, rest: string)
    requires s == piece + rest && piece != "" && piece[|piece| - 1] == '\n' && '\n' !in piece[..|piece| - 1]
    ensures IsLine(s, piece, true, rest)
  {
    var k := |piece| - 1;
    assert s[..k] == piece[..k] && s[k] == '\n';
    assert NewlineAt(s) == k;
  }

  lemma LastLine(s: string)
    requires s != "" && '\n' !in s
    ensures IsLine(s, s, false, "")
  {
  }

  /** What `batch_readline` makes of a piece. */
  function Chopped(piece: string, binary: bool): string {
    if piece != "" && piece[|piece| - 1] == '\n' then Chomp(piece[..|piece| - 1], binary) else piece
  }

  lemma ChoppedLine(s: string, piece: string, terminated: bool, rest: string, binary: bool)
    requires IsLine(s, piece, terminated, rest)
    ensures Chopped(piece, binary) == FirstLine(s, binary) && rest == AfterFirstLine(s) && s != ""
    ensures terminated ==> piece != "" && piece[|piece| - 1] == '\n'
  {
    var k := NewlineAt(s);
    if terminated {
      assert piece[..|piece| - 1] == s[..k];
    } else {
      assert s[..k] == s;
    }
  }

  lemma ChoppedPart(piece: string, binary: bool)
    requires '\n' !in piece
    ensures Chopped(piece, binary) == piece
  {
  }

  // ----- the buffer -----

  class LineBuffer {
    var buffer: array<char>
    var end: nat
    var startOfLine: nat
    var endOfLine: nat
    var bufread: nat
    var eof: bool
    var maxSize: nat
    var truncated: bool
    var failed: bool
    /** The bytes of the file that have not been read. */
    var file: string

    ghost predicate Valid()
      reads this, buffer
    {
      && buffer.Length == bufread + 1 && IO_SIZE <= bufread
      && startOfLine <= endOfLine <= end <= bufread
      && (eof ==> file == "" && endOfLine == end)
    }

    /** What has not been returned yet. */
    ghost function Pending(): string
      reads this, buffer
      requires endOfLine <= end <= buffer.Length
    {
      buffer[endOfLine..end] + file
    }

    /** `init_line_buffer` */
    constructor (file: string, maxSize: nat)
      ensures Valid() && fresh(buffer) && Pending() == file && !failed
      ensures this.maxSize == maxSize && bufread == IO_SIZE
    {
      this.file, this.maxSize, bufread := file, maxSize, IO_SIZE;
      var b := new char[IO_SIZE + 1];
      buffer := b;
      startOfLine, endOfLine, end := 0, 0, 0;
      eof, truncated, failed := false, false, false;
      new;
      b[0] := NUL;
      assert b[0..0] == "";
    }

    /** `my_read`: fails, or returns at least one and at most `count` bytes unless the file is exhausted. */
    method MyRead(count: nat) returns (ok: bool, got: string)
      requires count > 0
      modifies this`file
      ensures !ok ==> file == old(file)
      ensures ok ==> got + file == old(file) && |got| <= count && (got == "" <==> old(file) == "")
    {
      ok := *;
      got := "";
      if ok && file != "" {
        var k :| 1 <= k <= count && k <= |file|;
        got := file[..k];
        file := file[k..];
      }
    }

    /** `my_realloc` to twice the size. */
    method Grow()
      requires buffer.Length == bufread + 1
      modifies this`buffer, this`bufread
      ensures bufread == 2 * old(bufread) && fresh(buffer) && buffer.Length == bufread + 1
      ensures forall i | 0 <= i <= old(bufread) :: buffer[i] == old(buffer[i])
    {
      var b := new char[2 * bufread + 1];
      forall i | 0 <= i < buffer.Length {
        b[i] := buffer[i];
      }
      bufread := 2 * bufread;
      buffer := b;
    }
  
    /** Room for at least one block behind the kept bytes, by doubling if need be. The result is the number of bytes
        to ask for, 0 at the size limit. */
    method MakeRoom(bufbytes: nat) returns (count: nat)
      requires buffer.Length == bufread + 1 && IO_SIZE <= bufread && startOfLine + bufbytes == end <= bufread
      modifies this`buffer, this`bufread, this`end
      ensures buffer.Length == bufread + 1 && (buffer == old(buffer) || fresh(buffer))
      ensures bufread == old(bufread) || (bufread == 2 * old(bufread) <= maxSize && count > 0)
      ensures startOfLine + bufbytes <= buffer.Length && (end == bufbytes || end == startOfLine + bufbytes)
      ensures buffer[startOfLine..startOfLine + bufbytes] == old(buffer[startOfLine..end])
      ensures count > 0 ==> bufbytes + count <= bufread
      ensures count == 0 ==> && buffer == old(buffer) && end == old(end) && bufread < bufbytes + IO_SIZE
                             && maxSize < 2 * bufread
    {
      while true
        invariant buffer.Length == bufread + 1 && (buffer == old(buffer) || fresh(buffer))
        invariant bufread == old(bufread) || (bufread == 2 * old(bufread) <= maxSize)
        invariant bufread == old(bufread) ==> buffer == old(buffer) && end == old(end)
        invariant end == bufbytes || end == startOfLine + bufbytes
        invariant bufbytes + bufread <= 2 * bufread && startOfLine + bufbytes <= old(bufread) <= bufread
        invariant bufread != old(bufread) ==> bufbytes + IO_SIZE <= bufread
        invariant buffer[startOfLine..startOfLine + bufbytes] == old(buffer[startOfLine..end])
        decreases if bufbytes + IO_SIZE <= bufread then 0 else 1
      {
        count := (bufread - bufbytes) / IO_SIZE;
        count := count * IO_SIZE;
        if count != 0 {
          return;
        }
        if bufread * 2 > maxSize {
          return;
        }
        Grow();
        end := bufbytes;
      }
    }

    /** `fill_buffer`: -1 after an error, 0 at the end of the file or at the size limit, else the bytes added. */
    method FillBuffer() returns (n: int)
      requires buffer.Length == bufread + 1 && IO_SIZE <= bufread
      requires startOfLine <= endOfLine <= end <= bufread
      modifies this, buffer
      ensures old(eof) ==> n == 0 && unchanged(this) && unchanged(buffer)
      ensures !old(eof) ==> n >= -1 && Filled(n)
    {
      if eof {
        return 0;
      }
      n := Refill();
    }

    /** What a call of `fill_buffer` before the end of the file has done. */
    twostate predicate Filled(n: int)
      reads this, buffer
      requires old(buffer.Length == bufread + 1 && startOfLine <= endOfLine <= end <= bufread)
    {
      && (buffer == old(buffer) || fresh(buffer))
      && buffer.Length == bufread + 1 && IO_SIZE <= bufread && maxSize == old(maxSize) && truncated == old(truncated)
      && end <= bufread && (n != -1 ==> startOfLine <= endOfLine <= end)
      // each fill doubles the buffer at most once
      && (bufread == old(bufread) || bufread == 2 * old(bufread) <= maxSize)
      && (n == -1 ==> failed && !eof && startOfLine == old(startOfLine) && endOfLine == old(endOfLine))
      && (n != -1 ==> failed == old(failed))
      && (n == 0 && !eof ==>
            && buffer == old(buffer) && buffer[..] == old(buffer[..]) && bufread == old(bufread)
            && startOfLine == old(startOfLine) && end == old(end) && endOfLine == old(endOfLine) && file == old(file)
            && bufread < end - startOfLine + IO_SIZE && maxSize < 2 * bufread)
      && (n == 0 && eof ==>
            && old(file) == file == "" && endOfLine == end
            && (old(buffer[startOfLine..end]) == "" || old(buffer[end - 1]) == '\n'))
      && (n > 0 ==>
            && startOfLine == 0 && buffer[..endOfLine] == old(buffer[startOfLine..end])
            && if eof then old(file) == file == "" && end == endOfLine + 1 && buffer[endOfLine] == '\n' && endOfLine > 0
               else buffer[endOfLine..end] + file == old(file) && endOfLine < end)
    }

    method Refill() returns (n: int)
      requires buffer.Length == bufread + 1 && IO_SIZE <= bufread
      requires startOfLine <= endOfLine <= end <= bufread && !eof
      modifies this, buffer
      ensures n >= -1 && Filled(n)
    {
      var bufbytes := end - startOfLine;
      var count := MakeRoom(bufbytes);
      if count == 0 {
        return 0;
      }
      Shift(bufbytes);
      n := Receive(bufbytes, count);
    }

    /** The bytes kept move to the front of the buffer. */
    method Shift(bufbytes: nat)
      requires startOfLine + bufbytes <= buffer.Length && (end == bufbytes || end == startOfLine + bufbytes)
      modifies this`end, buffer
      ensures end == bufbytes && buffer[..bufbytes] == old(buffer[startOfLine..startOfLine + bufbytes])
    {
      if startOfLine != 0 {
        forall i | 0 <= i < bufbytes {
          buffer[i] := buffer[startOfLine + i];
        }
        end := bufbytes;
      }
    }

    /** One read of the file, to behind the `bufbytes` bytes kept; it sets the flag at the end of the file and
        ends an unterminated last line. */
    method Receive(bufbytes: nat, count: nat) returns (n: int)
      requires buffer.Length == bufread + 1 && count > 0 && bufbytes + count <= bufread && end == bufbytes && !eof
      modifies this`file, this`startOfLine, this`endOfLine, this`failed, this`eof, this`end, buffer
      ensures buffer[..bufbytes] == old(buffer[..bufbytes])
      ensures n == -1 ==> && failed && !eof && end == bufbytes && startOfLine == old(startOfLine)
                          && endOfLine == old(endOfLine)
      ensures n != -1 ==> startOfLine == 0 && endOfLine == bufbytes
      ensures n != -1 ==> failed == old(failed) && end == bufbytes + n <= bufread && n >= 0
      ensures n == 0 ==> eof && old(file) == file == "" && (bufbytes == 0 || buffer[bufbytes - 1] == '\n')
      ensures n > 0 ==>
                if eof then old(file) == file == "" && n == 1 && buffer[bufbytes] == '\n' && bufbytes > 0
                else buffer[bufbytes..end] + file == old(file)
      ensures n >= -1
    {
      var ok, got := MyRead(count);
      if !ok {
        failed := true;
        return -1;
      }
      n := |got|;
      forall i | 0 <= i < n {
        buffer[bufbytes + i] := got[i];
      }
      if n == 0 {
        eof := true;
        if bufbytes != 0 && buffer[end - 1] != '\n' {
          n := 1;
          buffer[end] := '\n';
        }
      }
      startOfLine, endOfLine := 0, bufbytes;
      end := end + n;
      buffer[end] := NUL;
      assert !eof ==> buffer[bufbytes..end] == got;
    }
  
    /** The state of the search for the end of the first line of `s`. */
    ghost predicate Searching(s: string)
      reads this, buffer
    {
      && buffer.Length == bufread + 1 && IO_SIZE <= bufread && startOfLine <= endOfLine <= end <= bufread
      && '\n' !in buffer[startOfLine..endOfLine]
      && (!eof ==> buffer[startOfLine..end] + file == s)
      && (eof ==> file == "" && if endOfLine == end then s == "" && startOfLine == end
                                else end == endOfLine + 1 && buffer[endOfLine] == '\n'
                                     && buffer[startOfLine..endOfLine] == s && s != "")
    }

    /** Filling the buffer when no newline is in sight. */
    method FillMore(ghost s: string) returns (n: int)
      requires Searching(s) && !failed && '\n' !in buffer[endOfLine..end]
      modifies this, buffer
      ensures (buffer == old(buffer) || fresh(buffer)) && maxSize == old(maxSize)
      ensures buffer.Length == bufread + 1 && IO_SIZE <= bufread
              && (n != -1 ==> startOfLine <= endOfLine <= end <= bufread)
      ensures n == -1 ==> failed
      ensures n == 0 && eof ==> s == Pending() == "" && !failed && Valid()
      ensures n == 0 && !eof ==>
                && Searching(s) && !failed && startOfLine < end == old(end) && '\n' !in buffer[startOfLine..end]
                && bufread < end - startOfLine + IO_SIZE && maxSize < 2 * bufread
      ensures n != -1 && n != 0 ==>
                Searching(s) && !failed && (|file| < |old(file)| || (|file| == |old(file)| && eof && !old(eof)))
    {
      ghost var held := buffer[startOfLine..end];
      assert held == buffer[startOfLine..endOfLine] + buffer[endOfLine..end];
      n := FillBuffer();
      if n > 0 {
        assert buffer[..endOfLine] == held && buffer[startOfLine..endOfLine] == held;
        if !eof {
          assert buffer[startOfLine..end] == held + buffer[endOfLine..end];
        }
      }
    }

    method StartLine()
      requires Valid()
      modifies this`startOfLine
      ensures Searching(Pending())
    {
      startOfLine := endOfLine;
      assert buffer[startOfLine..endOfLine] == "";
    }

    /** The line that ends at `pos` is handed out. */
    method TakeLine(pos: nat, ghost s: string) returns (outLength: nat)
      requires Searching(s) && endOfLine <= pos < end && buffer[pos] == '\n' && '\n' !in buffer[endOfLine..pos]
      modifies this`endOfLine, this`truncated
      ensures Valid() && !truncated && startOfLine + outLength <= endOfLine
      ensures IsLine(s, buffer[startOfLine..startOfLine + outLength], !eof, Pending())
    {
      hide IsLine;
      ghost var held := buffer[startOfLine..end];
      assert buffer[startOfLine..pos] == buffer[startOfLine..endOfLine] + buffer[endOfLine..pos];
      truncated := false;
      endOfLine := pos + 1;
      outLength := pos + 1 - (if eof then 1 else 0) - startOfLine;
      ghost var piece := buffer[startOfLine..startOfLine + outLength];
      if eof {
        LastLine(s);
        assert piece == s && Pending() == "";
      } else {
        assert held == piece + buffer[endOfLine..end];
        assert s == piece + Pending();
        LineFound(s, piece, Pending());
      }
    }

    /** At the size limit, what has been read so far is handed out. */
    method BreakLine(end0: nat, ghost s: string) returns (outLength: nat)
      requires Searching(s) && !eof && startOfLine < end == end0
      modifies this`endOfLine, this`truncated
      ensures Valid() && truncated && endOfLine == end == startOfLine + outLength
      ensures buffer[startOfLine..end] + Pending() == s
    {
      var pos := end0 - 1;
      truncated := true;
      endOfLine := pos + 1;
      outLength := pos + 1 - startOfLine;
      assert buffer[endOfLine..end] == "" && "" + file == file;
    }

    /** No newline in sight: after filling the buffer the search goes on, or there is no line, or the size
        limit breaks it. */
    method FillOrBreak(pos: nat, ghost s: string) returns (again: bool, found: bool, outLength: nat)
      requires Searching(s) && !failed && pos == end && '\n' !in buffer[endOfLine..end]
      modifies this, buffer
      ensures (buffer == old(buffer) || fresh(buffer)) && maxSize == old(maxSize)
      ensures again ==> Searching(s) && !failed && (|file| < |old(file)| || (|file| == |old(file)| && eof && !old(eof)))
      ensures !again && !found ==> failed || (Valid() && eof && s == Pending() == "")
      ensures !again && found ==>
                && !failed && Valid() && truncated && !eof && endOfLine == end == startOfLine + outLength
                && var piece := buffer[startOfLine..startOfLine + outLength];
                && piece + Pending() == s && '\n' !in piece && bufread < |piece| + IO_SIZE && maxSize < 2 * bufread
    {
      hide Searching;
      again, found, outLength := false, false, 0;
      var length := FillMore(s);
      if length == 0 {
        if !eof {
          outLength := BreakLine(pos, s);
          found := true;
        }
      } else if length != -1 {
        again := true;
      }
    }

    /** `intern_read_line`: finds the next line in the buffer, filling it as often as needed. */
    method InternReadLine() returns (found: bool, outLength: nat)
      requires Valid() && !failed
      modifies this, buffer
      ensures (failed || Valid()) && (buffer == old(buffer) || fresh(buffer)) && maxSize == old(maxSize)
      ensures !found ==> failed || (eof && old(Pending()) == Pending() == "")
      ensures found ==> !failed && startOfLine + outLength <= endOfLine
      ensures found && truncated ==>
                && var piece := buffer[startOfLine..startOfLine + outLength];
                && piece + Pending() == old(Pending()) && '\n' !in piece && endOfLine == end && !eof
                && startOfLine + outLength == end
                && bufread < |piece| + IO_SIZE && maxSize < 2 * bufread
      ensures found && !truncated ==>
                IsLine(old(Pending()), buffer[startOfLine..startOfLine + outLength], !eof, Pending())
    {
      hide IsLine, Searching;
      outLength := 0;
      ghost var s := Pending();
      StartLine();
      while true
        invariant Searching(s)
        invariant (buffer == old(buffer) || fresh(buffer)) && maxSize == old(maxSize) && !failed
        decreases |file|, if eof then 0 else 1
      {
        var pos := ScanForNewline(s);
        if pos == end {
          var again;
          again, found, outLength := FillOrBreak(pos, s);
          if again {
            continue;
          }
          return;
        }
        outLength := TakeLine(pos, s);
        found := true;
        return;
      }
    }

    /** The inner scan; it stops at `end` at the latest. */
    method ScanForNewline(ghost s: string) returns (pos: nat)
      requires Searching(s)
      ensures endOfLine <= pos <= end
      ensures pos < end ==> buffer[pos] == '\n'
      ensures '\n' !in buffer[endOfLine..pos]
    {
      pos := endOfLine;
      while buffer[pos] != '\n' && pos != end
        invariant endOfLine <= pos <= end
        decreases end - pos
        invariant '\n' !in buffer[endOfLine..pos]
      {
        pos := pos + 1;
      }
    }
  
    /** `batch_readline`. A truncated piece is a stretch of a line that does not fit the size limit. */
    method BatchReadline(binary: bool) returns (line: Option<string>)
      requires Valid() && !failed
      modifies this, buffer
      ensures (failed || Valid()) && (buffer == old(buffer) || fresh(buffer)) && maxSize == old(maxSize)
      ensures line.None? ==> failed || old(Pending()) == Pending() == ""
      ensures line.Some? ==> !failed && old(Pending()) != ""
      ensures line.Some? && !truncated ==>
                line.value == FirstLine(old(Pending()), binary) && Pending() == AfterFirstLine(old(Pending()))
      ensures line.Some? && truncated ==>
                && line.value + Pending() == old(Pending()) && '\n' !in line.value
                && bufread < |line.value| + IO_SIZE && maxSize < 2 * bufread
    {
      hide FirstLine, AfterFirstLine, NewlineAt, Chomp, Chopped, IsLine;
      var found, outLength := InternReadLine();
      if !found {
        return None;
      }
      ghost var s, piece := old(Pending()), buffer[startOfLine..startOfLine + outLength];
      if truncated {
        ChoppedPart(piece, binary);
      } else {
        ChoppedLine(s, piece, !eof, Pending(), binary);
      }
      line := Chop(outLength, binary);
    }

    /** The newline at the end of the piece, and a carriage return before it, are removed in place. */
    method Chop(length: nat, binary: bool) returns (line: Option<string>)
      requires Valid() && startOfLine + length <= endOfLine
      requires endOfLine < end && startOfLine + length == endOfLine ==> length > 0 && buffer[endOfLine - 1] == '\n'
      modifies buffer
      ensures Valid() && buffer[endOfLine..end] == old(buffer[endOfLine..end])
      ensures line == Some(Chopped(old(buffer[startOfLine..startOfLine + length]), binary))
    {
      var outLength := length;
      ghost var piece := buffer[startOfLine..startOfLine + length];
      if outLength != 0 && buffer[startOfLine + outLength - 1] == '\n' {
        outLength := outLength - 1;
        assert outLength != 0 ==> piece[..outLength][outLength - 1] == buffer[startOfLine + outLength - 1];
        if outLength != 0 && !binary && buffer[startOfLine + outLength - 1] == '\r' {
          outLength := outLength - 1;
          assert piece[..outLength + 1][..outLength] == piece[..outLength];
        }
      }
      assert outLength == length ==> piece[..outLength] == piece;
      assert buffer[startOfLine..startOfLine + outLength] == piece[..outLength] == Chopped(piece, binary);
      line := Some(buffer[startOfLine..startOfLine + outLength]);
      buffer[startOfLine + outLength] := NUL;
    }
  }

  // ----- the whole stream -----

  datatype Piece = Piece(text: string, truncated: bool)

  function Texts(ps: seq<Piece>): seq<string> {
    seq(|ps|, i requires 0 <= i < |ps| => ps[i].text)
  }

  /** The pieces with a newline restored after each one that is not truncated. */
  function Restored(ps: seq<Piece>): string {
    if ps == [] then "" else
      var p := ps[|ps| - 1];
      Restored(ps[..|ps| - 1]) + p.text + if p.truncated then "" else "\n"
  }

  lemma RestoredSnoc(ps: seq<Piece>, p: Piece)
    ensures Restored(ps + [p]) == Restored(ps) + p.text + if p.truncated then "" else "\n"
  {
    assert (ps + [p])[..|ps|] == ps;
  }

  /** Every line leaves room in the buffer, whatever the sizes of the reads. */
  predicate LinesFit(s: string, maxSize: nat) {
    forall l | l in Lines(s, true) :: 2 * (|l| + IO_SIZE) <= maxSize
  }

  lemma BinaryLine(s: string)
    requires s != ""
    ensures NewlineAt(s) < |s| ==> FirstLine(s, true) + "\n" + AfterFirstLine(s) == s
    ensures NewlineAt(s) == |s| ==> FirstLine(s, true) == s && AfterFirstLine(s) == ""
    ensures |FirstLine(s, true)| == NewlineAt(s)
  {
  }

  lemma PrefixBeforeNewline(s: string, piece: string, rest: string)
    requires s == piece + rest && '\n' !in piece
    ensures |piece| <= NewlineAt(s)
  {
    assert forall i | 0 <= i < |piece| :: s[i] == piece[i];
  }

  predicate Untruncated(ps: seq<Piece>) {
    forall p | p in ps :: !p.truncated
  }

  /** How far reading has come: `ps` has been returned and `s` is still to come. */
  ghost predicate Progress(s0: string, binary: bool, maxSize: nat, ps: seq<Piece>, s: string) {
    && (Untruncated(ps) ==> Lines(s0, binary) == Texts(ps) + Lines(s, binary))
    && (Untruncated(ps) ==> forall l | l in Lines(s, true) :: l in Lines(s0, true))
    && (LinesFit(s0, maxSize) ==> Untruncated(ps))
    && (binary ==> Restored(ps) + s == s0 || (s == "" && Unterminated(s0) && Restored(ps) == s0 + "\n"))
  }

  predicate Unterminated(s: string) {
    s != "" && s[|s| - 1] != '\n'
  }

  lemma ProgressStarts(s: string, binary: bool, maxSize: nat)
    ensures Progress(s, binary, maxSize, [], s)
  {
    assert Texts([]) + Lines(s, binary) == Lines(s, binary);
    assert Restored([]) + s == s;
  }

  lemma UntruncatedSnoc(ps: seq<Piece>, p: Piece)
    ensures Untruncated(ps + [p]) <==> Untruncated(ps) && !p.truncated
  {
    if Untruncated(ps + [p]) {
      assert p in ps + [p];
      assert forall q | q in ps :: q in ps + [p];
    }
  }

  lemma ProgressLine(s0: string, binary: bool, maxSize: nat, ps: seq<Piece>, s: string)
    requires Progress(s0, binary, maxSize, ps, s) && s != ""
    ensures Progress(s0, binary, maxSize, ps + [Piece(FirstLine(s, binary), false)], AfterFirstLine(s))
    ensures |AfterFirstLine(s)| < |s|
  {
    hide Restored, FirstLine, AfterFirstLine;
    var p, t := Piece(FirstLine(s, binary), false), AfterFirstLine(s);
    UntruncatedSnoc(ps, p);
    AfterFirstLineShorter(s);
    assert Texts(ps + [p]) == Texts(ps) + [p.text];
    assert Texts(ps) + ([p.text] + Lines(t, binary)) == Texts(ps) + [p.text] + Lines(t, binary);
    assert forall l | l in Lines(t, true) :: l in Lines(s, true);
    RestoredSnoc(ps, p);
    if binary {
      BinaryLine(s);
      if NewlineAt(s) < |s| {
        assert Restored(ps) + (p.text + "\n" + t) == Restored(ps) + p.text + "\n" + t;
      } else {
        assert Restored(ps) + s + "\n" == s0 + "\n";
        assert s0[|s0| - 1] == s[|s| - 1];
      }
    }
  }

  /** A truncated piece needs a line that does not fit. */
  lemma ProgressTruncated(s0: string, binary: bool, maxSize: nat, ps: seq<Piece>, s: string, text: string, t: string)
    requires Progress(s0, binary, maxSize, ps, s) && s != ""
    requires s == text + t && '\n' !in text && maxSize < 2 * (|text| + IO_SIZE)
    ensures Progress(s0, binary, maxSize, ps + [Piece(text, true)], t)
  {
    hide Lines, LinesFit, Untruncated, Restored;
    var p := Piece(text, true);
    UntruncatedSnoc(ps, p);
    RestoredSnoc(ps, p);
    assert Restored(ps) + (text + t) == Restored(ps) + text + "" + t;
    if Untruncated(ps) {
      TooLong(s0, maxSize, s, text, t);
    }
  }

  lemma TooLong(s0: string, maxSize: nat, s: string, text: string, t: string)
    requires forall l | l in Lines(s, true) :: l in Lines(s0, true)
    requires s == text + t && s != "" && '\n' !in text && maxSize < 2 * (|text| + IO_SIZE)
    ensures !LinesFit(s0, maxSize)
  {
    assert Lines(s, true)[0] == FirstLine(s, true);
    PrefixBeforeNewline(s, text, t);
    BinaryLine(s);
  }

  /** Reading to the end, as `read_and_execute` does. Whatever the sizes of the reads: when no piece is
      truncated, and in particular when every line fits, the pieces are the lines of the stream; in binary
      mode they always restore the stream, up to a newline missing at its very end. */
  method ReadAll(b: LineBuffer, binary: bool) returns (pieces: seq<Piece>)
    requires b.Valid() && !b.failed
    modifies b, b.buffer
    ensures !b.failed && Untruncated(pieces) ==> Texts(pieces) == Lines(old(b.Pending()), binary)
    ensures !b.failed && LinesFit(old(b.Pending()), old(b.maxSize)) ==> Untruncated(pieces)
    ensures !b.failed && binary ==>
              var s := old(b.Pending());
              Restored(pieces) == s || (Unterminated(s) && Restored(pieces) == s + "\n")
  {
    hide Lines, FirstLine, AfterFirstLine, Restored, Untruncated, LinesFit, Progress;
    ghost var s0 := b.Pending();
    pieces := [];
    ProgressStarts(s0, binary, b.maxSize);
    while true
      invariant b.Valid() && !b.failed && (b.buffer == old(b.buffer) || fresh(b.buffer)) && b.maxSize == old(b.maxSize)
      invariant Progress(s0, binary, b.maxSize, pieces, b.Pending())
      decreases |b.Pending()|
    {
      ghost var s := b.Pending();
      var line := b.BatchReadline(binary);
      if line.None? {
        ProgressEnds(s0, binary, b.maxSize, pieces);
        return;
      }
      if b.truncated {
        ProgressTruncated(s0, binary, b.maxSize, pieces, s, line.value, b.Pending());
      } else {
        ProgressLine(s0, binary, b.maxSize, pieces, s);
      }
      pieces := pieces + [Piece(line.value, b.truncated)];
    }
  }

  lemma ProgressEnds(s0: string, binary: bool, maxSize: nat, ps: seq<Piece>)
    ensures Progress(s0, binary, maxSize, ps, "") ==>
              && (Untruncated(ps) ==> Texts(ps) == Lines(s0, binary))
              && (LinesFit(s0, maxSize) ==> Untruncated(ps))
              && (binary ==> Restored(ps) == s0 || (Unterminated(s0) && Restored(ps) == s0 + "\n"))
  {
    assert Texts(ps) + [] == Texts(ps) && Restored(ps) + "" == Restored(ps);
  }
}
