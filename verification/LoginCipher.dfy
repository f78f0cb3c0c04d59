/** The login file on disk (client/mysql_config_editor.cc): each line of the text encrypted on its own,
    its cipher preceded by the cipher's length in four bytes. The cipher itself is a parameter. */
module LoginCipher {
  import opened Common
  import LineReader
  import StatementLine

  const MY_LINE_MAX: nat := 4096
  const MAX_CIPHER_STORE_LEN: nat := 4

  /** `ob_aes_get_size` for a block cipher of 16 bytes. */
  function AesSize(n: nat): nat {
    16 * (n / 16) + 16
  }

  function Le4(n: nat): (b: seq<byte>)
    requires n < 0x1_0000_0000
    ensures |b| == 4
  {
    [(n % 256) as byte, (n / 256 % 256) as byte, (n / 65536 % 256) as byte, (n / 16777216) as byte]
  }

  /** `sint4korr`. */
  function FromLe4(b: seq<byte>): int
    requires |b| == 4
  {
    var n := b[0] as int + 256 * b[1] as int + 65536 * b[2] as int + 16777216 * b[3] as int;
    if n < 0x8000_0000 then n else n - 0x1_0000_0000
  }

  lemma Le4RoundTrip(n: nat)
    requires n < 0x8000_0000
    ensures FromLe4(Le4(n)) == n
  {
    var a, b := n / 256, n / 65536;
    assert b == a / 256 && n / 16777216 == b / 256;
  }

  /** Encryption of non-empty text by the key of the file, and its inverse. */
  ghost predicate Inverse(enc: string -> seq<byte>, dec: seq<byte> -> Option<string>) {
    forall s: string | s != "" :: |enc(s)| == AesSize(|s|) && dec(enc(s)) == Some(s)
  }

  // ----- what the file holds -----

  /** The first line with its newline, if there is one. */
  function FirstLine(text: string): Option<string> {
    var n := LineReader.NewlineAt(text);
    if n < |text| then Some(text[..n + 1]) else None
  }

  ghost function Record(enc: string -> seq<byte>, line: string): seq<byte>
    requires |enc(line)| < 0x1_0000_0000
  {
    Le4(|enc(line)|) + enc(line)
  }

  /** Every terminated line fits in the line buffer together with its length. */
  ghost predicate Fits(text: string)
    decreases |text|
  {
    FirstLine(text).None? ||
    (AesSize(|FirstLine(text).value|) <= MY_LINE_MAX - MAX_CIPHER_STORE_LEN && Fits(text[|FirstLine(text).value|..]))
  }

  /** The records of the terminated lines. */
  ghost function Records(enc: string -> seq<byte>, text: string): seq<byte>
    requires forall s: string | s != "" :: |enc(s)| == AesSize(|s|)
    requires Fits(text)
    decreases |text|
  {
    if FirstLine(text).None? then []
    else Record(enc, FirstLine(text).value) + Records(enc, text[|FirstLine(text).value|..])
  }

  /** The text before its first line that does not fit. */
  ghost function FittingPart(text: string): (r: string)
    ensures r <= text && |r| <= |text|
    decreases |text|
  {
    if FirstLine(text).None? then text
    else
      var line := FirstLine(text).value;
      if AesSize(|line|) > MY_LINE_MAX - MAX_CIPHER_STORE_LEN then "" else line + FittingPart(text[|line|..])
  }

  /** The terminated lines, each up to its first NUL. */
  ghost function Kept(text: string): string
    decreases |text|
  {
    if FirstLine(text).None? then ""
    else StatementLine.CString(FirstLine(text).value) + Kept(text[|FirstLine(text).value|..])
  }

  ghost function Prepend(s: string, r: Option<string>): Option<string> {
    if r.None? then None else Some(s + r.value)
  }

  /** What reading a file gives; a last record cut short is passed over. */
  ghost function Read(dec: seq<byte> -> Option<string>, file: seq<byte>): Option<string>
    decreases |file|
  {
    if |file| < MAX_CIPHER_STORE_LEN then Some("")
    else
      var n, rest := FromLe4(file[..4]), file[4..];
      if n < 0 || n > MY_LINE_MAX then None
      else if |rest| < n then Some("")
      else
        var plain := dec(rest[..n]);
        if plain.None? then None else Prepend(StatementLine.CString(plain.value), Read(dec, rest[n..]))
  }

  // ----- the round trip -----

  lemma ReadRecord(dec: seq<byte> -> Option<string>, cipher: seq<byte>, line: string, more: seq<byte>)
    requires |cipher| <= MY_LINE_MAX && dec(cipher) == Some(line) && Read(dec, more).Some?
    ensures Read(dec, Le4(|cipher|) + cipher + more) == Some(StatementLine.CString(line) + Read(dec, more).value)
  {
    hide Le4, FromLe4;
    Le4RoundTrip(|cipher|);
    var head, file := Le4(|cipher|), Le4(|cipher|) + cipher + more;
    assert file[..4] == head;
    var rest := file[4..];
    assert rest == cipher + more;
    assert rest[..|cipher|] == cipher && rest[|cipher|..] == more;
  }

  /** What is written is read back, up to the last newline and, in each line, up to a NUL. */
  lemma {:induction false} WrittenIsRead(enc: string -> seq<byte>, dec: seq<byte> -> Option<string>, text: string)
    requires Inverse(enc, dec) && Fits(text)
    ensures Read(dec, Records(enc, text)) == Some(Kept(text))
    decreases |text|
  {
    hide Le4, Read;
    if FirstLine(text).Some? {
      var line := FirstLine(text).value;
      WrittenIsRead(enc, dec, text[|line|..]);
      ReadRecord(dec, enc(line), line, Records(enc, text[|line|..]));
    } else {
      ReadNothing(dec);
    }
  }

  lemma ReadNothing(dec: seq<byte> -> Option<string>)
    ensures Read(dec, []) == Some("")
  {
  }

  lemma KeptLength(text: string)
    ensures |Kept(text)| <= |text|
    decreases |text|
  {
    if FirstLine(text).Some? {
      KeptLength(text[|FirstLine(text).value|..]);
    }
  }

  /** So the whole text comes back exactly if it is empty or ends in a newline, and holds no NUL. */
  lemma {:induction false} KeptExactly(text: string)
    ensures Kept(text) == text <==> (text == "" || text[|text| - 1] == '\n') && NUL !in text
    decreases |text|
  {
    var first := FirstLine(text);
    if first.None? {
      assert text != "" ==> text[|text| - 1] in text[..LineReader.NewlineAt(text)];
    } else {
      var line, rest := first.value, text[|first.value|..];
      assert text == line + rest;
      KeptExactly(rest);
      KeptLength(rest);
      assert rest != "" ==> rest[|rest| - 1] == text[|text| - 1];
      assert NUL !in text <==> NUL !in line && NUL !in rest;
      CStringExactly(line);
      if Kept(text) == text {
        assert |StatementLine.CString(line)| == |line|;
        assert Kept(text)[|line|..] == Kept(rest) && text[|line|..] == rest;
      }
    }
  }

  lemma CStringExactly(s: string)
    ensures |StatementLine.CString(s)| <= |s|
    ensures |StatementLine.CString(s)| == |s| <==> NUL !in s
  {
    var r := StatementLine.CString(s);
    assert |r| == |s| ==> r == s;
  }

  // ----- text with a line that does not fit -----

  lemma FirstLineOf(line: string, rest: string)
    requires FirstLine(line) == Some(line)
    ensures FirstLine(line + rest) == Some(line)
  {
    var n := |line| - 1;
    assert line[..n + 1] == line && '\n' !in line[..n];
    assert (line + rest)[..n] == line[..n] && (line + rest)[n] == '\n';
    FirstLineIs(line + rest, n);
    assert (line + rest)[..n + 1] == line;
  }

  lemma FirstLineAlone(text: string)
    requires FirstLine(text).Some?
    ensures FirstLine(FirstLine(text).value) == FirstLine(text)
  {
    var line := FirstLine(text).value;
    var n := |line| - 1;
    assert text[..n] == line[..n];
    FirstLineIs(line, n);
    assert line[..n + 1] == line;
  }

  /** What fits is written by itself; it is all of the text exactly if every line fits, and is cut at a
      line end otherwise. */
  lemma {:induction false} FittingFits(text: string)
    ensures Fits(FittingPart(text)) && (Fits(text) <==> FittingPart(text) == text)
    ensures !Fits(text) ==> FittingPart(text) == "" || FittingPart(text)[|FittingPart(text)| - 1] == '\n'
    decreases |text|
  {
    hide AesSize;
    if FirstLine(text).Some? {
      var line := FirstLine(text).value;
      var rest := text[|line|..];
      assert text == line + rest;
      FirstLineAlone(text);
      FittingFits(rest);
      var part := FittingPart(rest);
      FirstLineOf(line, part);
      assert (line + part)[|line|..] == part;
      hide FirstLine;
      assert line[|line| - 1] == '\n' by {
        assert FirstLine(text) == Some(line);
      }
    }
  }

  // ----- writing and reading -----

  lemma FirstLineIs(rest: string, len: nat)
    requires len <= |rest| && '\n' !in rest[..len] && (len < |rest| ==> rest[len] == '\n')
    ensures FirstLine(rest) == if len < |rest| then Some(rest[..len + 1]) else None
  {
    if len < |rest| {
      LineReader.LineFound(rest, rest[..len + 1], rest[len + 1..]);
    } else if rest != "" {
      LineReader.LastLine(rest);
    }
  }

  /** The length of the line at `at`, its newline not counted. */
  method LineLength(text: string, at: nat) returns (len: nat)
    requires at <= |text|
    ensures at + len <= |text|
    ensures FirstLine(text[at..]) == if at + len < |text| then Some(text[at..at + len + 1]) else None
  {
    len := 0;
    ghost var rest := text[at..];
    while at + len < |text| && text[at + len] != '\n'
      invariant at + len <= |text| && '\n' !in rest[..len]
    {
      assert rest[..len + 1] == rest[..len] + [rest[len]];
      len := len + 1;
    }
    FirstLineIs(rest, len);
    assert len < |rest| ==> rest[..len + 1] == text[at..at + len + 1];
  }

  /** The records of text that starts with the line `line`, and of text without a terminated line. */
  lemma RecordsStep(enc: string -> seq<byte>, file: seq<byte>, rest: string, line: string)
    requires (forall s: string | s != "" :: |enc(s)| == AesSize(|s|)) && FirstLine(rest) == Some(line)
    ensures line != "" && line <= rest
    ensures Fits(rest) == (AesSize(|line|) <= MY_LINE_MAX - MAX_CIPHER_STORE_LEN && Fits(rest[|line|..]))
    ensures if AesSize(|line|) > MY_LINE_MAX - MAX_CIPHER_STORE_LEN then Written(enc, rest) == []
            else file + Written(enc, rest) == file + (Le4(AesSize(|line|)) + enc(line)) + Written(enc, rest[|line|..])
  {
    hide Records;
    FittingFits(rest);
    if AesSize(|line|) <= MY_LINE_MAX - MAX_CIPHER_STORE_LEN {
      var part := FittingPart(rest[|line|..]);
      FirstLineAlone(rest);
      FirstLineOf(line, part);
      assert (line + part)[|line|..] == part;
      FittingFits(rest[|line|..]);
      RecordsOf(enc, line, part);
      var record, more := Le4(AesSize(|line|)) + enc(line), Records(enc, part);
      assert file + (record + more) == file + record + more;
    } else {
      RecordsNone(enc);
    }
  }

  lemma RecordsOf(enc: string -> seq<byte>, line: string, part: string)
    requires (forall s: string | s != "" :: |enc(s)| == AesSize(|s|)) && Fits(part) && Fits(line + part)
    requires FirstLine(line + part) == Some(line)
    ensures Records(enc, line + part) == Le4(AesSize(|line|)) + enc(line) + Records(enc, part)
  {
    hide Le4;
    assert (line + part)[|line|..] == part;
  }

  lemma RecordsNone(enc: string -> seq<byte>)
    requires forall s: string | s != "" :: |enc(s)| == AesSize(|s|)
    ensures Fits("") && Records(enc, "") == []
  {
  }

  /** What writing `text` leaves in the file. */
  ghost function Written(enc: string -> seq<byte>, text: string): seq<byte>
    requires forall s: string | s != "" :: |enc(s)| == AesSize(|s|)
  {
    FittingFits(text);
    Records(enc, FittingPart(text))
  }

  lemma RecordsEnd(enc: string -> seq<byte>, file: seq<byte>, rest: string)
    requires (forall s: string | s != "" :: |enc(s)| == AesSize(|s|)) && FirstLine(rest).None?
    ensures Fits(rest) && file + Written(enc, rest) == file
  {
  }

  /** `ob_encrypt_and_write_file`: it succeeds exactly if every terminated line fits. The file is emptied
      first, and holds the records of the lines before the first that does not fit. */
  method EncryptAndWrite(enc: string -> seq<byte>, text: string) returns (ok: bool, file: seq<byte>)
    requires forall s: string | s != "" :: |enc(s)| == AesSize(|s|)
    ensures ok == Fits(text)
    ensures file == Written(enc, text)
  {
    hide FirstLine, Le4, Fits, Written, AesSize;
    file := [];
    var bytesRead, done := 0, false;
    assert text[0..] == text;
    while !done
      invariant bytesRead <= |text| && Fits(text) == Fits(text[bytesRead..])
      invariant Written(enc, text) == file + Written(enc, text[bytesRead..])
      invariant done ==> Fits(text) && file == Written(enc, text)
      decreases |text| - bytesRead, !done
    {
      ghost var rest := text[bytesRead..];
      var len := LineLength(text, bytesRead);
      if bytesRead + len == |text| {
        RecordsEnd(enc, file, rest);
        done := true;
      } else {
        RecordsStep(enc, file, rest, text[bytesRead..bytesRead + len + 1]);
        var encLen := AesSize(len + 1);
        if encLen > MY_LINE_MAX - MAX_CIPHER_STORE_LEN {
          assert file + [] == file;
          return false, file;
        }
        var cipher := enc(text[bytesRead..bytesRead + len + 1]);
        bytesRead := bytesRead + len + 1;
        assert rest[len + 1..] == text[bytesRead..];
        file := file + (Le4(encLen) + cipher);
      }
    }
    return true, file;
  }

  lemma PrependTwice(a: string, b: string, r: Option<string>)
    ensures Prepend(a, Prepend(b, r)) == Prepend(a + b, r) && Prepend("", r) == r
  {
    if r.Some? {
      assert a + (b + r.value) == a + b + r.value && "" + r.value == r.value;
    }
  }

  /** `read_and_decrypt_file`. */
  method ReadAndDecrypt(dec: seq<byte> -> Option<string>, file: seq<byte>) returns (r: Option<string>)
    ensures r == Read(dec, file)
  {
    hide FromLe4;
    var buf, at := "", 0;
    assert file[0..] == file;
    PrependTwice("", "", Read(dec, file));
    while at + MAX_CIPHER_STORE_LEN <= |file|
      invariant at <= |file|
      invariant Read(dec, file) == Prepend(buf, Read(dec, file[at..]))
    {
      var cipherLen := FromLe4(file[at..at + 4]);
      ghost var rest := file[at..];
      assert rest[..4] == file[at..at + 4] && rest[4..] == file[at + 4..];
      if cipherLen < 0 || cipherLen > MY_LINE_MAX {
        return None;
      }
      at := at + 4;
      if |file| - at < cipherLen {
        assert buf + "" == buf;
        return Some(buf);
      }
      var plain := dec(file[at..at + cipherLen]);
      assert rest[4..][..cipherLen] == file[at..at + cipherLen];
      at := at + cipherLen;
      assert rest[4..][cipherLen..] == file[at..];
      if plain.None? {
        return None;
      }
      PrependTwice(buf, StatementLine.CString(plain.value), Read(dec, file[at..]));
      buf := buf + StatementLine.CString(plain.value);
    }
    assert buf + "" == buf;
    return Some(buf);
  }
}
