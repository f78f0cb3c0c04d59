/** The error-message compiler, first half: `parse_input_file` of extra/comp_err.c, its numbering of
    errors and gaps, and its accounting of sections. Lines are given as parsed. */
module ErrorMessages {
  import opened Common

  const ER_OFFSET: nat := 1000
  const MAX_SECTIONS: nat := 4

  /** A message text for one language; a skipped error number has no text. */
  datatype Message = Message(lang: string, text: Option<string>)

  /** An error, or a placeholder for an unused number, which has no name. */
  datatype Entry = Entry(code: nat, name: Option<string>, messages: seq<Message>) {
    predicate Skipped() {
      messages != [] && messages[0].text.None?
    }
  }

  datatype Line =
    | Language(languages: seq<string>)
    | Number(skip: bool, n: nat)
    | DefaultLanguage(lang: string)
    | MessageLine(lang: string, text: string)
    | ErrorLine(name: string)
    | Comment
    | Malformed

  /** Whether the format specifiers of two texts agree. */
  type Check = (string, string) -> bool

  // ----- messages -----

  predicate HasLanguage(messages: seq<Message>, lang: string) {
    exists i | 0 <= i < |messages| :: messages[i].lang == lang
  }

  /** `generate_empty_message`. */
  function Gap(lang: string, code: nat, skip: bool): Entry {
    Entry(code, None, [Message(lang, if skip then None else Some(""))])
  }

  /** A message for the latest entry: not twice for a language, and not for a skipped number. */
  function AddMessage(check: Check, entries: seq<Entry>, lang: string, text: string): Option<seq<Entry>> {
    if entries == [] then None
    else
      var e := entries[|entries| - 1];
      if HasLanguage(e.messages, lang) || e.Skipped() then None
      else if e.messages != [] && !check(e.messages[0].text.value, text) then None
      else Some(entries[|entries| - 1 := e.(messages := e.messages + [Message(lang, Some(text))])])
  }

  // ----- the file as a list of numbered entries -----

  /** What has been read: the entries, the number the next one gets, and the rows of each finished
      section; `before` rows precede the current section. */
  datatype Doc = Doc(entries: seq<Entry>, next: nat, numbered: bool, sections: seq<int>, before: nat,
                     language: string, languages: seq<string>)

  function Rows(entries: seq<Entry>): (n: nat)
    ensures n <= |entries|
  {
    if entries == [] then 0
    else Rows(entries[..|entries| - 1]) + if entries[|entries| - 1].Skipped() then 0 else 1
  }

  function Gaps(lang: string, lo: nat, hi: nat, skip: bool): seq<Entry> {
    if lo >= hi then [] else Gaps(lang, lo, hi - 1, skip) + [Gap(lang, hi - 1, skip)]
  }

  /** A numbering line. The first one only sets the number, which entries already there add to; a later
      one fills the numbers up to its own. A skip ends the section. */
  function Renumber(d: Doc, skip: bool, n: nat): Option<Doc> {
    if n == 0 || (skip && |d.sections| >= MAX_SECTIONS - 1) then None
    else
      var rows := Rows(d.entries);
      var sections := if !skip then d.sections else d.sections + [rows - d.before];
      if !d.numbered then
        Some(d.(numbered := true, next := n + |d.entries|, sections := sections, before := 0))
      else if n < d.next then None
      else
        Some(d.(entries := d.entries + Gaps(d.language, d.next, n, skip), next := n, sections := sections,
                before := if skip then rows else d.before))
  }

  function ReadLine(check: Check, d: Doc, l: Line): Option<Doc> {
    match l
    case Language(languages) => Some(d.(languages := languages))
    case Number(skip, n) => Renumber(d, skip, n)
    case DefaultLanguage(lang) => Some(d.(language := lang))
    case MessageLine(lang, text) =>
      var r := AddMessage(check, d.entries, lang, text);
      if r.None? then None else Some(d.(entries := r.value))
    case ErrorLine(name) => Some(d.(entries := d.entries + [Entry(d.next, Some(name), [])], next := d.next + 1))
    case Comment => Some(d)
    case Malformed => None
  }

  ghost function ReadLines(check: Check, lines: seq<Line>): Option<Doc> {
    if lines == [] then Some(Doc([], ER_OFFSET, false, [], 0, "eng", []))
    else
      var d := ReadLines(check, lines[..|lines| - 1]);
      if d.None? then None else ReadLine(check, d.value, lines[|lines| - 1])
  }

  /** The rows of every section. */
  function Sections(d: Doc): seq<int> {
    d.sections + [Rows(d.entries) - d.before]
  }

  // ----- the parser -----

  lemma RowsSnoc(entries: seq<Entry>, e: Entry)
    ensures Rows(entries + [e]) == Rows(entries) + if e.Skipped() then 0 else 1
  {
    assert (entries + [e])[..|entries|] == entries;
  }

  lemma AddMessageRows(check: Check, entries: seq<Entry>, lang: string, text: string)
    requires AddMessage(check, entries, lang, text).Some?
    ensures var r := AddMessage(check, entries, lang, text).value;
            |r| == |entries| && Rows(r) == Rows(entries) && forall i | 0 <= i < |r| :: r[i].code == entries[i].code
  {
    var r := AddMessage(check, entries, lang, text).value;
    assert r[..|r| - 1] == entries[..|entries| - 1];
  }

  class Parser {
    var rcount: nat
    var skipped: nat
    var erOffset: nat
    var erOffsetFound: bool
    var sectionStart: nat
    var sectionHeader: seq<int>
    var errors: seq<Entry>
    var defaultLanguage: string
    var languages: seq<string>

    /** The counters say what has been read. */
    ghost predicate Reads(d: Doc)
      reads this
    {
      && errors == d.entries && erOffsetFound == d.numbered && sectionHeader == d.sections
      && defaultLanguage == d.language && languages == d.languages
      && rcount == |errors| && skipped == |errors| - Rows(errors) && (erOffsetFound || skipped == 0)
      && erOffset + rcount == d.next
      && d.before <= Rows(errors) && erOffset + rcount - sectionStart == Rows(errors) - d.before
    }

    constructor ()
      ensures Reads(Doc([], ER_OFFSET, false, [], 0, "eng", []))
    {
      rcount, skipped, erOffset, erOffsetFound := 0, 0, ER_OFFSET, false;
      sectionStart, sectionHeader, errors := ER_OFFSET, [], [];
      defaultLanguage, languages := "eng", [];
    }

    /** A start-error-number or skip-to-error-number line. */
    method NumberLine(skip: bool, n: nat, ghost d: Doc) returns (ok: bool)
      requires Reads(d)
      modifies this
      ensures ok == Renumber(d, skip, n).Some?
      ensures ok ==> Reads(Renumber(d, skip, n).value)
    {
      hide Rows, Gaps;
      if n == 0 {
        return false;
      }
      if skip {
        if |sectionHeader| >= MAX_SECTIONS - 1 {
          return false;
        }
        sectionHeader := sectionHeader + [erOffset + rcount - sectionStart];
        sectionStart := n;
      }
      if !erOffsetFound {
        erOffsetFound := true;
        erOffset, sectionStart := n, n;
      } else {
        if n < erOffset + rcount {
          return false;
        }
        FillGaps(skip, n, d);
      }
      ok := true;
    }

    /** Placeholders for all numbers up to `n`. */
    method FillGaps(skip: bool, n: nat, ghost d: Doc)
      requires errors == d.entries && defaultLanguage == d.language && rcount == |errors|
      requires skipped == |errors| - Rows(errors) && erOffset + rcount == d.next <= n
      modifies this`rcount, this`skipped, this`errors
      ensures errors == d.entries + Gaps(d.language, d.next, n, skip) && rcount == |errors|
      ensures skipped == |errors| - Rows(errors) && erOffset + rcount == n
      ensures Rows(errors) == Rows(d.entries) + if skip then 0 else n - d.next
    {
      hide Rows;
      while erOffset + rcount < n
        invariant d.next <= erOffset + rcount <= n && rcount == |errors|
        invariant errors == d.entries + Gaps(d.language, d.next, erOffset + rcount, skip)
        invariant skipped == |errors| - Rows(errors)
        invariant Rows(errors) == Rows(d.entries) + if skip then 0 else erOffset + rcount - d.next
      {
        if skip {
          skipped := skipped + 1;
        }
        var gap := Gap(defaultLanguage, erOffset + rcount, skip);
        RowsSnoc(errors, gap);
        ghost var gaps := Gaps(d.language, d.next, erOffset + rcount, skip);
        assert d.entries + gaps + [gap] == d.entries + (gaps + [gap]);
        errors := errors + [gap];
        rcount := rcount + 1;
      }
    }

    method ParseLine(check: Check, l: Line, ghost d: Doc) returns (ok: bool)
      requires Reads(d)
      modifies this
      ensures ok == ReadLine(check, d, l).Some?
      ensures ok ==> Reads(ReadLine(check, d, l).value)
    {
      hide Rows, Renumber;
      ok := true;
      match l {
        case Language(given) => languages := given;
        case Number(skip, n) => ok := NumberLine(skip, n, d);
        case DefaultLanguage(lang) => defaultLanguage := lang;
        case MessageLine(lang, text) =>
          var r := AddMessage(check, errors, lang, text);
          if r.None? {
            return false;
          }
          AddMessageRows(check, errors, lang, text);
          errors := r.value;
        case ErrorLine(name) =>
          RowsSnoc(errors, Entry(erOffset + rcount, Some(name), []));
          errors := errors + [Entry(erOffset + rcount, Some(name), [])];
          rcount := rcount + 1;
        case Comment =>
        case Malformed => return false;
      }
    }
  }

  /** `parse_input_file`: the number of errors, that of rows, and the rows of each section. */
  method ParseInputFile(check: Check, lines: seq<Line>)
    returns (ok: bool, errors: seq<Entry>, errorCount: nat, sections: seq<int>, language: string,
             languages: seq<string>, ghost d: Doc)
    ensures ok == ReadLines(check, lines).Some?
    ensures ok ==> && d == ReadLines(check, lines).value
                   && errors == d.entries && errorCount == Rows(errors) && sections == Sections(d)
                   && language == d.language && languages == d.languages
  {
    hide ReadLine;
    var p := new Parser();
    d := Doc([], ER_OFFSET, false, [], 0, "eng", []);
    for i := 0 to |lines|
      invariant ReadLines(check, lines[..i]) == Some(d) && p.Reads(d)
    {
      assert lines[..i + 1][..i] == lines[..i];
      ok := p.ParseLine(check, lines[i], d);
      if !ok {
        FailsOn(check, lines, i + 1);
        return false, [], 0, [], "", [], d;
      }
      d := ReadLine(check, d, lines[i]).value;
    }
    assert lines[..|lines|] == lines;
    sections := p.sectionHeader + [p.erOffset + p.rcount - p.sectionStart];
    return true, p.errors, p.rcount - p.skipped, sections, p.defaultLanguage, p.languages, d;
  }

  lemma {:induction false} FailsOn(check: Check, lines: seq<Line>, i: nat)
    requires i <= |lines| && ReadLines(check, lines[..i]).None?
    ensures ReadLines(check, lines).None?
    decreases |lines|
  {
    if i < |lines| {
      assert lines[..|lines| - 1][..i] == lines[..i];
      FailsOn(check, lines[..|lines| - 1], i);
    } else {
      assert lines[..i] == lines;
    }
  }

  // ----- numbers and sections -----

  ghost predicate HasNumber(lines: seq<Line>) {
    exists i | 0 <= i < |lines| :: lines[i].Number?
  }

  /** How many errors come before the first numbering line. */
  ghost function Early(lines: seq<Line>): nat {
    if lines == [] || lines[0].Number? then 0 else Early(lines[1..]) + if lines[0].ErrorLine? then 1 else 0
  }

  /** The number that the first numbering line gives, and whether it is a skip. */
  ghost function First(lines: seq<Line>): (bool, nat) {
    if lines == [] then (false, ER_OFFSET)
    else if lines[0].Number? then (lines[0].skip, lines[0].n)
    else First(lines[1..])
  }

  lemma {:induction false} FirstSnoc(lines: seq<Line>, l: Line)
    ensures HasNumber(lines + [l]) == (HasNumber(lines) || l.Number?)
    ensures HasNumber(lines) ==> First(lines + [l]) == First(lines) && Early(lines + [l]) == Early(lines)
    ensures !HasNumber(lines) ==> First(lines) == (false, ER_OFFSET)
    ensures !HasNumber(lines) ==> First(lines + [l]) == if l.Number? then (l.skip, l.n) else (false, ER_OFFSET)
    ensures !HasNumber(lines) ==> Early(lines + [l]) == Early(lines) + if l.ErrorLine? then 1 else 0
  {
    assert (lines + [l])[|lines|] == l && forall i | 0 <= i < |lines| :: (lines + [l])[i] == lines[i];
    if lines == [] {
      assert (lines + [l])[1..] == [];
    } else {
      assert (lines + [l])[1..] == lines[1..] + [l];
      FirstSnoc(lines[1..], l);
      assert HasNumber(lines) == (lines[0].Number? || HasNumber(lines[1..])) by {
        if i :| 0 < i < |lines| && lines[i].Number? {
          assert lines[1..][i - 1].Number?;
        }
      }
    }
  }

  lemma {:induction false} GapCodes(lang: string, lo: nat, hi: nat, skip: bool)
    requires lo <= hi
    ensures |Gaps(lang, lo, hi, skip)| == hi - lo
    ensures forall i | 0 <= i < hi - lo :: Gaps(lang, lo, hi, skip)[i].code == lo + i
    decreases hi
  {
    if hi > lo {
      GapCodes(lang, lo, hi - 1, skip);
    }
  }

  ghost function Sum(ns: seq<int>): int {
    if ns == [] then 0 else Sum(ns[..|ns| - 1]) + ns[|ns| - 1]
  }

  /** Entries are numbered in a row, from 1000 up to the first numbering line and in step with that
      line's number after it. */
  ghost predicate Numbered(entries: seq<Entry>, early: nat, base: nat) {
    forall i | 0 <= i < |entries| :: entries[i].code == (if i < early then ER_OFFSET else base) + i
  }

  lemma {:induction false} Numbering(check: Check, lines: seq<Line>)
    requires ReadLines(check, lines).Some?
    ensures var d := ReadLines(check, lines).value;
            && d.numbered == HasNumber(lines) && d.next == First(lines).1 + |d.entries|
            && Early(lines) <= |d.entries| && (d.numbered || Early(lines) == |d.entries|)
            && Numbered(d.entries, Early(lines), First(lines).1)
  {
    hide Rows, HasNumber, First, Early;
    if lines == [] {
      NoLines();
    } else {
      var init, l := lines[..|lines| - 1], lines[|lines| - 1];
      assert lines == init + [l];
      Numbering(check, init);
      FirstSnoc(init, l);
      var d := ReadLines(check, init).value;
      if l.Number? && d.numbered {
        GapCodes(d.language, d.next, l.n, l.skip);
      } else if l.MessageLine? {
        AddMessageRows(check, d.entries, l.lang, l.text);
      }
    }
  }

  lemma NoLines()
    ensures !HasNumber([]) && First([]) == (false, ER_OFFSET) && Early([]) == 0
  {
  }

  /** The lines after the first numbering line. */
  ghost function Later(lines: seq<Line>): seq<Line> {
    if lines == [] then [] else if lines[0].Number? then lines[1..] else Later(lines[1..])
  }

  /** No error comes after the first numbering line, and every later one asks for the number reached. */
  ghost predicate NothingLater(lines: seq<Line>) {
    forall l | l in Later(lines) :: !l.ErrorLine? && (l.Number? ==> l.n == First(lines).1 + Early(lines))
  }

  lemma {:induction false} LaterSnoc(lines: seq<Line>, l: Line)
    ensures Later(lines + [l]) == if HasNumber(lines) then Later(lines) + [l] else []
    ensures !HasNumber(lines) ==> Later(lines) == []
  {
    if lines == [] {
      assert (lines + [l])[1..] == [];
    } else {
      assert (lines + [l])[1..] == lines[1..] + [l];
      LaterSnoc(lines[1..], l);
      if !lines[0].Number? {
        assert HasNumber(lines) == HasNumber(lines[1..]) by {
          if i :| 0 < i < |lines| && lines[i].Number? {
            assert lines[1..][i - 1].Number?;
          }
        }
      }
    }
  }

  /** Nothing is numbered after the first numbering line exactly if the lines there ask for nothing. */
  lemma {:induction false} NumberedLater(check: Check, lines: seq<Line>)
    requires ReadLines(check, lines).Some?
    ensures |ReadLines(check, lines).value.entries| == Early(lines) <==> NothingLater(lines)
  {
    hide Rows, HasNumber, Numbered;
    if lines != [] {
      var init, l := lines[..|lines| - 1], lines[|lines| - 1];
      assert lines == init + [l];
      NumberedLater(check, init);
      Numbering(check, init);
      Numbering(check, lines);
      FirstSnoc(init, l);
      LaterSnoc(init, l);
      var d := ReadLines(check, init).value;
      if l.Number? && d.numbered {
        GapCodes(d.language, d.next, l.n, l.skip);
      } else if l.MessageLine? {
        AddMessageRows(check, d.entries, l.lang, l.text);
      }
    }
  }

  /** The numbers of all entries, gaps included, are consecutive exactly if no error comes before the
      first numbering line, or that line changes nothing, or nothing is numbered after it. */
  lemma ConsecutiveNumbers(check: Check, lines: seq<Line>)
    requires ReadLines(check, lines).Some?
    ensures var entries := ReadLines(check, lines).value.entries;
            (forall i | 0 <= i < |entries| - 1 :: entries[i + 1].code == entries[i].code + 1)
            <==> Early(lines) == 0 || First(lines).1 == ER_OFFSET || NothingLater(lines)
  {
    hide ReadLines, NothingLater;
    Numbering(check, lines);
    NumberedLater(check, lines);
    var entries, k := ReadLines(check, lines).value.entries, Early(lines);
    if 0 < k < |entries| {
      assert entries[k - 1 + 1].code == First(lines).1 + k && entries[k - 1].code == ER_OFFSET + k - 1;
    }
  }

  lemma SumSnoc(ns: seq<int>, n: int)
    ensures Sum(ns + [n]) == Sum(ns) + n
  {
    assert (ns + [n])[..|ns|] == ns;
  }

  lemma {:induction false} FinishedSections(check: Check, lines: seq<Line>)
    requires ReadLines(check, lines).Some?
    ensures var d := ReadLines(check, lines).value;
            && Sum(d.sections) == d.before + (if First(lines).0 then Early(lines) else 0)
            && (d.numbered || (d.sections == [] && d.before == 0 && Rows(d.entries) == |d.entries|))
  {
    hide Rows, HasNumber, Numbered;
    if lines == [] {
      NoRows();
    } else {
      var init, l := lines[..|lines| - 1], lines[|lines| - 1];
      assert lines == init + [l];
      FinishedSections(check, init);
      Numbering(check, init);
      FirstSnoc(init, l);
      var d := ReadLines(check, init).value;
      match l
      case Number(skip, n) => SumSnoc(d.sections, Rows(d.entries) - d.before);
      case MessageLine(lang, text) => AddMessageRows(check, d.entries, lang, text);
      case ErrorLine(name) => RowsSnoc(d.entries, Entry(d.next, Some(name), []));
      case _ =>
    }
  }

  lemma NoRows()
    ensures Rows([]) == 0
  {
  }

  /** The rows of the sections add up to those there are exactly if the first numbering line is not a
      skip that errors come before; otherwise these are counted twice. */
  lemma SectionsAddUp(check: Check, lines: seq<Line>)
    requires ReadLines(check, lines).Some?
    ensures var d := ReadLines(check, lines).value;
            && Sum(Sections(d)) == Rows(d.entries) + (if First(lines).0 then Early(lines) else 0)
            && (Sum(Sections(d)) == Rows(d.entries) <==> !First(lines).0 || Early(lines) == 0)
  {
    hide ReadLines;
    FinishedSections(check, lines);
    var d := ReadLines(check, lines).value;
    SumSnoc(d.sections, Rows(d.entries) - d.before);
  }

  lemma ReadSnoc(check: Check, lines: seq<Line>, l: Line)
    requires ReadLines(check, lines).Some?
    ensures ReadLines(check, lines + [l]) == ReadLine(check, ReadLines(check, lines).value, l)
  {
    assert (lines + [l])[..|lines|] == lines;
  }

  /** Both fail with an error before a first skip: its number and the next one's are not consecutive,
      and its row is counted twice. */
  lemma ErrorBeforeNumber(check: Check, lines: seq<Line>, x: string, y: string, n: nat)
    requires lines == [ErrorLine(x), Number(true, n), ErrorLine(y)] && n > 0 && n != ER_OFFSET
    ensures ReadLines(check, lines).Some?
    ensures var d := ReadLines(check, lines).value;
            && |d.entries| == 2 && d.entries[1].code != d.entries[0].code + 1
            && Sum(Sections(d)) == Rows(d.entries) + 1
  {
    hide ReadLines, Gaps, Rows, Sum;
    var none: seq<Line> := [];
    NothingRead(check, none);
    ReadSnoc(check, none, lines[0]);
    ReadSnoc(check, none + [lines[0]], lines[1]);
    ReadSnoc(check, none + [lines[0]] + [lines[1]], lines[2]);
    assert lines == none + [lines[0]] + [lines[1]] + [lines[2]];
    EarlyOf(lines);
    Numbering(check, lines);
    SectionsAddUp(check, lines);
  }

  lemma NothingRead(check: Check, lines: seq<Line>)
    requires lines == []
    ensures ReadLines(check, lines) == Some(Doc([], ER_OFFSET, false, [], 0, "eng", []))
  {
  }

  lemma EarlyOf(lines: seq<Line>)
    requires |lines| > 1 && lines[0].ErrorLine? && lines[1].Number?
    ensures Early(lines) == 1 && First(lines) == (lines[1].skip, lines[1].n)
  {
    assert lines[1..][0] == lines[1];
  }
}
