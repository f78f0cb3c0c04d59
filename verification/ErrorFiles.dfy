/** The error-message compiler, second half: the message file of one language, as `create_sys_files` of
    extra/comp_err.c writes it. Characters are single bytes. */
module ErrorFiles {
  import opened Common
  import opened ErrorMessages

  const HEADER_LENGTH: nat := 32

  // ----- numbers -----

  /** `int2store`: the low 16 bits. */
  function Int2(n: int): (b: seq<byte>)
    ensures |b| == 2
  {
    [(n % 256) as byte, (n / 256 % 256) as byte]
  }

  function Int4(n: int): (b: seq<byte>)
    ensures |b| == 4
  {
    Int2(n) + Int2(n / 65536)
  }

  /** `uint2korr`. */
  function FromInt2(b: seq<byte>): nat
    requires |b| == 2
  {
    b[0] as nat + 256 * b[1] as nat
  }

  lemma Int2RoundTrip(n: int)
    ensures FromInt2(Int2(n)) == n % 65536
  {
    var q := n / 256;
    assert n == 256 * (256 * (q / 256) + q % 256) + n % 256;
    assert n == 65536 * (q / 256) + (256 * (q % 256) + n % 256);
  }

  function Int2All(ns: seq<int>): (b: seq<byte>)
    ensures |b| == 2 * |ns|
  {
    if ns == [] then [] else Int2All(ns[..|ns| - 1]) + Int2(ns[|ns| - 1])
  }

  // ----- the message of a language -----

  /** `find_message`: the message in the language, or else the one in the default language. */
  method FindMessage(e: Entry, lang: string, defaultLang: string, noDefault: bool) returns (r: Option<Message>)
    ensures r == Found(e.messages, lang, defaultLang, noDefault)
  {
    var fallback: Option<Message> := None;
    for i := 0 to |e.messages|
      invariant !HasLanguage(e.messages[..i], lang) && fallback == LastOf(e.messages[..i], defaultLang)
    {
      assert e.messages[..i + 1] == e.messages[..i] + [e.messages[i]];
      var tmp := e.messages[i];
      if tmp.lang == lang {
        FirstIs(e.messages, i, lang);
        return Some(tmp);
      }
      if tmp.lang == defaultLang {
        fallback := Some(tmp);
      }
    }
    assert e.messages[..|e.messages|] == e.messages;
    return if noDefault then None else fallback;
  }

  ghost function FirstOf(messages: seq<Message>, lang: string): Option<Message> {
    if messages == [] then None
    else if messages[0].lang == lang then Some(messages[0])
    else FirstOf(messages[1..], lang)
  }

  ghost function LastOf(messages: seq<Message>, lang: string): Option<Message> {
    if messages == [] then None
    else if messages[|messages| - 1].lang == lang then Some(messages[|messages| - 1])
    else LastOf(messages[..|messages| - 1], lang)
  }

  ghost function Found(messages: seq<Message>, lang: string, defaultLang: string, noDefault: bool): Option<Message> {
    if HasLanguage(messages, lang) then FirstOf(messages, lang)
    else if noDefault then None
    else LastOf(messages, defaultLang)
  }

  lemma {:induction false} FirstIs(messages: seq<Message>, i: nat, lang: string)
    requires i < |messages| && messages[i].lang == lang && !HasLanguage(messages[..i], lang)
    ensures HasLanguage(messages, lang) && FirstOf(messages, lang) == Some(messages[i])
  {
    if i > 0 {
      assert messages[..i][0].lang != lang;
      var later := messages[1..][..i - 1];
      forall j | 0 <= j < |later| ensures later[j].lang != lang {
        assert later[j] == messages[..i][j + 1];
      }
      FirstIs(messages[1..], i - 1, lang);
    }
  }

  lemma {:induction false} LastHas(messages: seq<Message>, lang: string)
    ensures match LastOf(messages, lang)
            case None => !HasLanguage(messages, lang)
            case Some(m) => m in messages && m.lang == lang
  {
    if messages != [] && messages[|messages| - 1].lang != lang {
      LastHas(messages[..|messages| - 1], lang);
    }
  }

  // ----- the rows -----

  /** The texts written for a language, unless some error has none for it. */
  ghost function Texts(entries: seq<Entry>, lang: string, defaultLang: string): Option<seq<string>> {
    if entries == [] then Some([])
    else
      var texts := Texts(entries[..|entries| - 1], lang, defaultLang);
      var m := Found(entries[|entries| - 1].messages, lang, defaultLang, false);
      if texts.None? || m.None? then None
      else if m.value.text.None? then texts
      else Some(texts.value + [m.value.text.value])
  }

  ghost function Data(texts: seq<string>): string {
    if texts == [] then "" else Data(texts[..|texts| - 1]) + texts[|texts| - 1] + [NUL]
  }

  /** The lengths stored: of each text with its NUL, but for the last row of what the file position has
      become by then. */
  ghost function Lengths(texts: seq<string>): seq<int> {
    seq(|texts|, i requires 0 <= i < |texts| =>
      if i < |texts| - 1 then |texts[i]| + 1 else -2 * |texts| - |Data(texts[..i])|)
  }

  ghost function Header(length: int, maxError: int, rows: int, sections: int, csnum: byte): (h: seq<byte>)
    ensures |h| == HEADER_LENGTH
  {
    [254, 254, 2, 4, 1, 0] + Int4(length) + Int2(maxError) + Int2(rows) + Int2(sections)
    + [0, 0, 0, 0, 0, 0, 0, 0, 0, 0, 0, 0, 0, 0, csnum, 0]
  }

  /** What stands in front of the rows. */
  ghost function Front(texts: seq<string>, maxError: int, sections: seq<int>, csnum: byte): seq<byte> {
    Header(|Data(texts)|, maxError, |texts|, |sections|, csnum) + Int2All(sections) + Int2All(Lengths(texts))
  }

  /** The rows of one language, with the position of each. */
  method WriteRows(entries: seq<Entry>, lang: string, defaultLang: string)
    returns (ok: bool, data: string, filePos: seq<int>, ghost texts: seq<string>)
    ensures ok == Texts(entries, lang, defaultLang).Some?
    ensures ok ==> texts == Texts(entries, lang, defaultLang).value && data == Data(texts)
    ensures ok ==> |filePos| == |texts| && forall i | 0 <= i < |texts| :: filePos[i] == |Data(texts[..i])|
  {
    hide Found;
    data, filePos, texts := "", [], [];
    for i := 0 to |entries|
      invariant Texts(entries[..i], lang, defaultLang) == Some(texts) && data == Data(texts)
      invariant |filePos| == |texts| && forall i | 0 <= i < |texts| :: filePos[i] == |Data(texts[..i])|
    {
      assert entries[..i + 1][..i] == entries[..i];
      var tmp := FindMessage(entries[i], lang, defaultLang, false);
      if tmp.None? {
        NoTexts(entries, i + 1, lang, defaultLang);
        return false, "", [], [];
      }
      if tmp.value.text.Some? {
        var text := tmp.value.text.value;
        filePos := filePos + [|data|];
        data := data + text + [NUL];
        assert (texts + [text])[..|texts|] == texts;
        assert forall j | 0 <= j < |texts| :: (texts + [text])[..j] == texts[..j];
        texts := texts + [text];
      }
    }
    assert entries[..|entries|] == entries;
    ok := true;
  }

  lemma {:induction false} NoTexts(entries: seq<Entry>, i: nat, lang: string, defaultLang: string)
    requires i <= |entries| && Texts(entries[..i], lang, defaultLang).None?
    ensures Texts(entries, lang, defaultLang).None?
  {
    if i == |entries| {
      assert entries[..i] == entries;
    } else {
      assert entries[..|entries| - 1][..i] == entries[..i];
      NoTexts(entries[..|entries| - 1], i, lang, defaultLang);
    }
  }

  lemma DataStep(texts: seq<string>, i: nat)
    requires i < |texts|
    ensures |Data(texts[..i + 1])| == |Data(texts[..i])| + |texts[i]| + 1
  {
    assert texts[..i + 1][..i] == texts[..i];
  }

  lemma Int2AllSnoc(ns: seq<int>, i: nat)
    requires i < |ns|
    ensures Int2All(ns[..i + 1]) == Int2All(ns[..i]) + Int2(ns[i])
  {
    assert ns[..i + 1][..i] == ns[..i];
  }

  /** `create_sys_files` for one language: what stands in front of the rows, and the rows. */
  method CreateSysFile(entries: seq<Entry>, lang: string, defaultLang: string, sections: seq<int>, maxError: nat,
                       errorCount: nat, csnum: byte)
    returns (ok: bool, front: seq<byte>, data: string, ghost texts: seq<string>)
    requires Texts(entries, lang, defaultLang).Some? ==> |Texts(entries, lang, defaultLang).value| == errorCount
    ensures ok == Texts(entries, lang, defaultLang).Some?
    ensures ok ==> texts == Texts(entries, lang, defaultLang).value && data == Data(texts)
    ensures ok ==> front == Front(texts, maxError, sections, csnum)
    ensures ok ==> |front| == HEADER_LENGTH + (errorCount + |sections|) * 2
  {
    hide Texts, Int2, Int2All, Data;
    var startPos := HEADER_LENGTH + (errorCount + |sections|) * 2;
    var filePos;
    ok, data, filePos, texts := WriteRows(entries, lang, defaultLang);
    if !ok {
      return false, [], "", [];
    }
    var rowNr := |filePos|;
    var length := startPos + |data| - HEADER_LENGTH - (errorCount + |sections|) * 2;
    front := [254, 254, 2, 4, 1, 0] + Int4(length) + Int2(maxError) + Int2(rowNr) + Int2(|sections|)
    + [0, 0, 0, 0, 0, 0, 0, 0, 0, 0, 0, 0, 0, 0, csnum, 0] + Int2All(sections);
    ghost var head := front;
    filePos := filePos + [|front| - startPos];
    ghost var ls := Lengths(texts);
    NoLengths(ls);
    for i := 0 to rowNr
      invariant front == head + Int2All(ls[..i])
    {
      DataStep(texts, i);
      Int2AllSnoc(ls, i);
      assert filePos[i + 1] - filePos[i] == ls[i];
      front := front + Int2(filePos[i + 1] - filePos[i]);
    }
    assert ls[..|ls|] == ls;
  }

  lemma NoLengths(ns: seq<int>)
    ensures Int2All(ns[..0]) == []
  {
  }

  // ----- rows and errors -----

  /** An entry as the parser leaves it: texts throughout, or for a skipped number one message without. */
  ghost predicate Sound(e: Entry) {
    if e.Skipped() then |e.messages| == 1 else forall i | 0 <= i < |e.messages| :: e.messages[i].text.Some?
  }

  ghost predicate AllSound(entries: seq<Entry>) {
    forall i | 0 <= i < |entries| :: Sound(entries[i])
  }

  lemma {:induction false} GapsSound(lang: string, lo: nat, hi: nat, skip: bool)
    ensures AllSound(Gaps(lang, lo, hi, skip))
    decreases hi
  {
    if hi > lo {
      GapsSound(lang, lo, hi - 1, skip);
    }
  }

  lemma {:induction false} ReadSound(check: Check, lines: seq<Line>)
    requires ReadLines(check, lines).Some?
    ensures AllSound(ReadLines(check, lines).value.entries)
  {
    hide Gaps, Rows;
    if lines != [] {
      var init, l := lines[..|lines| - 1], lines[|lines| - 1];
      ReadSound(check, init);
      var d := ReadLines(check, init).value;
      if l.Number? {
        GapsSound(d.language, d.next, l.n, l.skip);
      }
    }
  }

  lemma FoundIn(messages: seq<Message>, lang: string, defaultLang: string)
    ensures var m := Found(messages, lang, defaultLang, false); m.Some? ==> m.value in messages
  {
    LastHas(messages, defaultLang);
    if i :| 0 <= i < |messages| && messages[i].lang == lang {
      FirstIn(messages, lang);
    }
  }

  lemma {:induction false} FirstIn(messages: seq<Message>, lang: string)
    ensures FirstOf(messages, lang).Some? ==> FirstOf(messages, lang).value in messages
  {
    if messages != [] && messages[0].lang != lang {
      FirstIn(messages[1..], lang);
    }
  }

  /** Every language has as many rows as there are error numbers in use. */
  lemma {:induction false} RowsPerLanguage(entries: seq<Entry>, lang: string, defaultLang: string)
    requires AllSound(entries) && Texts(entries, lang, defaultLang).Some?
    ensures |Texts(entries, lang, defaultLang).value| == Rows(entries)
  {
    hide Found;
    if entries != [] {
      var e := entries[|entries| - 1];
      RowsPerLanguage(entries[..|entries| - 1], lang, defaultLang);
      FoundIn(e.messages, lang, defaultLang);
      assert Sound(e);
    }
  }

  /** Where row `i` starts. */
  ghost function RowStart(texts: seq<string>, i: nat): nat
    requires i <= |texts|
  {
    if i == 0 then 0 else RowStart(texts, i - 1) + |texts[i - 1]| + 1
  }

  lemma {:induction false} DataPrefix(texts: seq<string>, i: nat)
    requires i <= |texts|
    ensures |Data(texts[..i])| == RowStart(texts, i) && Data(texts[..i]) <= Data(texts)
  {
    if i > 0 {
      DataPrefix(texts, i - 1);
      DataStep(texts, i - 1);
    }
    DataGrows(texts, i);
  }

  lemma {:induction false} DataGrows(texts: seq<string>, i: nat)
    requires i <= |texts|
    ensures Data(texts[..i]) <= Data(texts)
    decreases |texts|
  {
    if i == |texts| {
      assert texts[..i] == texts;
    } else {
      var init := texts[..|texts| - 1];
      assert init[..i] == texts[..i];
      DataGrows(init, i);
    }
  }

  lemma RowAt(texts: seq<string>, i: nat)
    requires i < |texts|
    ensures var at := RowStart(texts, i);
            && at + |texts[i]| < |Data(texts)|
            && Data(texts)[at..at + |texts[i]|] == texts[i] && Data(texts)[at + |texts[i]|] == NUL
  {
    DataPrefix(texts, i);
    DataPrefix(texts, i + 1);
    assert texts[..i + 1][..i] == texts[..i];
    var upto := Data(texts[..i + 1]);
    assert upto == Data(texts[..i]) + texts[i] + [NUL];
    assert Data(texts)[..|upto|] == upto;
    assert upto[|Data(texts[..i])|..|upto| - 1] == texts[i];
  }

  /** The number stored in two bytes at `at`. */
  function Stored(front: seq<byte>, at: nat): nat
    requires at + 2 <= |front|
  {
    FromInt2(front[at..at + 2])
  }

  /** Where a reader of a file with so many sections finds row `i`: it adds up the lengths stored before it. */
  function ReadStart(front: seq<byte>, sections: nat, i: nat): nat
    requires HEADER_LENGTH + 2 * (sections + i) <= |front|
  {
    if i == 0 then 0 else ReadStart(front, sections, i - 1) + Stored(front, HEADER_LENGTH + 2 * (sections + i - 1))
  }

  lemma {:induction false} Int2AllAt(ns: seq<int>, i: nat)
    requires i < |ns|
    ensures Int2All(ns)[2 * i..2 * i + 2] == Int2(ns[i])
  {
    hide Int2;
    var n := |ns| - 1;
    if i < n {
      Int2AllAt(ns[..n], i);
      assert Int2All(ns)[2 * i..2 * i + 2] == Int2All(ns[..n])[2 * i..2 * i + 2];
    }
  }

  lemma FrontAt(texts: seq<string>, maxError: int, sections: seq<int>, csnum: byte, i: nat)
    requires i < |texts|
    ensures |Front(texts, maxError, sections, csnum)| == HEADER_LENGTH + 2 * (|sections| + |texts|)
    ensures Stored(Front(texts, maxError, sections, csnum), HEADER_LENGTH + 2 * (|sections| + i))
            == Lengths(texts)[i] % 65536
  {
    hide Header, Int2All, Int2, FromInt2, Lengths;
    var front, ls := Front(texts, maxError, sections, csnum), Lengths(texts);
    LengthsSize(texts);
    var at := HEADER_LENGTH + 2 * |sections|;
    assert front[at..] == Int2All(ls);
    assert front[at + 2 * i..at + 2 * i + 2] == Int2All(ls)[2 * i..2 * i + 2];
    Int2AllAt(ls, i);
    Int2RoundTrip(ls[i]);
  }

  lemma LengthsSize(texts: seq<string>)
    ensures |Lengths(texts)| == |texts|
    ensures forall i | 0 <= i < |texts| - 1 :: Lengths(texts)[i] == |texts[i]| + 1
  {
  }

  /** The lengths stored are right for all rows up to the first text that is too long for 16 bits, and the
      sum of those stored falls short of the row from there on. */
  lemma {:induction false} ReadStartIs(texts: seq<string>, maxError: int, sections: seq<int>, csnum: byte, i: nat)
    requires i < |texts| && |Front(texts, maxError, sections, csnum)| == HEADER_LENGTH + 2 * (|sections| + |texts|)
    ensures var at := ReadStart(Front(texts, maxError, sections, csnum), |sections|, i);
            at <= RowStart(texts, i) && (at == RowStart(texts, i) <==> forall j | 0 <= j < i :: |texts[j]| < 65535)
  {
    hide Front, Lengths, Stored;
    if i > 0 {
      ReadStartIs(texts, maxError, sections, csnum, i - 1);
      FrontAt(texts, maxError, sections, csnum, i - 1);
      LengthsSize(texts);
      StoredLength(|texts[i - 1]| + 1);
    }
  }

  lemma StoredLength(n: nat)
    ensures n % 65536 <= n && (n % 65536 == n <==> n < 65536)
  {
  }

  /** A reader of the file finds the text of row `i`, with a NUL after it, where the lengths stored before
      it in the file add up to, exactly if none of the texts before it is too long for its length. */
  lemma RowFound(texts: seq<string>, maxError: int, sections: seq<int>, csnum: byte, i: nat)
    requires i < |texts|
    ensures |Front(texts, maxError, sections, csnum)| == HEADER_LENGTH + 2 * (|sections| + |texts|)
    ensures var at := ReadStart(Front(texts, maxError, sections, csnum), |sections|, i);
            && (at == RowStart(texts, i) <==> forall j | 0 <= j < i :: |texts[j]| < 65535)
            && (at == RowStart(texts, i) ==>
                  && at + |texts[i]| < |Data(texts)|
                  && Data(texts)[at..at + |texts[i]|] == texts[i] && Data(texts)[at + |texts[i]|] == NUL)
  {
    hide Front, Data;
    FrontAt(texts, maxError, sections, csnum, i);
    ReadStartIs(texts, maxError, sections, csnum, i);
    RowAt(texts, i);
  }

  /** Lines are read into a buffer of this size. */
  const LINE_SIZE: nat := 1000

  ghost predicate Short(lines: seq<Line>) {
    forall i | 0 <= i < |lines| && lines[i].MessageLine? :: |lines[i].text| < LINE_SIZE
  }

  ghost predicate ShortEntry(e: Entry) {
    forall i | 0 <= i < |e.messages| && e.messages[i].text.Some? :: |e.messages[i].text.value| < LINE_SIZE
  }

  ghost predicate AllShort(entries: seq<Entry>) {
    forall i | 0 <= i < |entries| :: ShortEntry(entries[i])
  }

  lemma {:induction false} GapsShort(lang: string, lo: nat, hi: nat, skip: bool)
    ensures AllShort(Gaps(lang, lo, hi, skip))
    decreases hi
  {
    if hi > lo {
      GapsShort(lang, lo, hi - 1, skip);
    }
  }

  lemma {:induction false} ReadShort(check: Check, lines: seq<Line>)
    requires ReadLines(check, lines).Some? && Short(lines)
    ensures AllShort(ReadLines(check, lines).value.entries)
  {
    hide Gaps, Rows;
    if lines != [] {
      var init, l := lines[..|lines| - 1], lines[|lines| - 1];
      ReadShort(check, init);
      var d := ReadLines(check, init).value;
      if l.Number? {
        GapsShort(d.language, d.next, l.n, l.skip);
      }
    }
  }

  lemma {:induction false} TextsShort(entries: seq<Entry>, lang: string, defaultLang: string)
    requires AllShort(entries) && Texts(entries, lang, defaultLang).Some?
    ensures var texts := Texts(entries, lang, defaultLang).value;
            forall i | 0 <= i < |texts| :: |texts[i]| < LINE_SIZE
  {
    hide Found;
    if entries != [] {
      var e := entries[|entries| - 1];
      TextsShort(entries[..|entries| - 1], lang, defaultLang);
      FoundIn(e.messages, lang, defaultLang);
      assert ShortEntry(e);
    }
  }

  /** So a reader finds every row of a file compiled from lines as they are read. */
  lemma EveryRowFound(check: Check, lines: seq<Line>, lang: string, texts: seq<string>, csnum: byte, i: nat)
    requires Short(lines) && ReadLines(check, lines).Some?
    requires Texts(ReadLines(check, lines).value.entries, lang, ReadLines(check, lines).value.language) == Some(texts)
    requires i < |texts|
    ensures var d := ReadLines(check, lines).value;
            var front := Front(texts, |d.entries|, Sections(d), csnum);
            && |front| == HEADER_LENGTH + 2 * (|Sections(d)| + |texts|)
            && var at := ReadStart(front, |Sections(d)|, i);
            && at + |texts[i]| < |Data(texts)|
            && Data(texts)[at..at + |texts[i]|] == texts[i] && Data(texts)[at + |texts[i]|] == NUL
  {
    hide ReadLines, Texts, Front, Data, Sections;
    var d := ReadLines(check, lines).value;
    ReadShort(check, lines);
    TextsShort(d.entries, lang, d.language);
    RowFound(texts, |d.entries|, Sections(d), csnum, i);
  }

  /** The length stored for the last row is right exactly if the size of all rows and of their lengths is
      a multiple of 65536. */
  lemma LastLength(texts: seq<string>, maxError: int, sections: seq<int>, csnum: byte)
    requires texts != [] && |texts[|texts| - 1]| + 1 < 65536
    ensures |Front(texts, maxError, sections, csnum)| == HEADER_LENGTH + 2 * (|sections| + |texts|)
    ensures Stored(Front(texts, maxError, sections, csnum), HEADER_LENGTH + 2 * (|sections| + |texts| - 1))
            == |texts[|texts| - 1]| + 1
            <==> (|Data(texts)| + 2 * |texts|) % 65536 == 0
  {
    hide Front, Stored;
    var n, stored := |texts| - 1, Lengths(texts)[|texts| - 1];
    FrontAt(texts, maxError, sections, csnum, n);
    var len, all := |texts[n]| + 1, |Data(texts)| + 2 * |texts|;
    assert stored == len - all;
    Congruent(len, all);
  }

  lemma Congruent(a: int, b: int)
    requires 0 <= a < 65536
    ensures (a - b) % 65536 == a <==> b % 65536 == 0
  {
    var q, r := b / 65536, b % 65536;
    assert a - b == a - r - 65536 * q;
  }

  /** A whole message file for one language from the lines of the text file; it fails if these are not
      accepted, name no languages, hold no error, or lack a text for one. */
  method Compile(check: Check, lines: seq<Line>, lang: string, csnum: byte)
    returns (ok: bool, front: seq<byte>, data: string, ghost texts: seq<string>)
    ensures ok <==> && ReadLines(check, lines).Some?
                    && var d := ReadLines(check, lines).value;
                    && d.languages != [] && d.entries != [] && Texts(d.entries, lang, d.language).Some?
    ensures ok ==> && var d := ReadLines(check, lines).value;
                   && Texts(d.entries, lang, d.language) == Some(texts) && |texts| == Rows(d.entries)
                   && data == Data(texts)
                   && front == Front(texts, |d.entries|, Sections(d), csnum)
                   && |front| == HEADER_LENGTH + 2 * |Sections(d)| + 2 * |texts|
  {
    hide ReadLines, Rows, Texts, Data, Front;
    var errors, errorCount, sections, language, languages;
    ghost var d;
    ok, errors, errorCount, sections, language, languages, d := ParseInputFile(check, lines);
    ok := ok && languages != [] && errors != [];
    if ok {
      ReadSound(check, lines);
      if Texts(errors, lang, language).Some? {
        RowsPerLanguage(errors, lang, language);
      }
      ok, front, data, texts := CreateSysFile(errors, lang, language, sections, |errors|, errorCount, csnum);
    }
    if !ok {
      front, data, texts := [], "", [];
    }
  }
}
