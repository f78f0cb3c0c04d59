/** The literals mysqlimport writes for its field options (client/mysqlimport.c), and the scan by which
    the server reads a quoted literal (sql/sql_lex.cc, backslash escapes on). */
module FieldEscape {
  import opened Common

  // ----- the writer -----

  /** The escaped text, by what a backslash takes with it. */
  function Escaped(s: string): (r: string)
    ensures |r| <= 2 * |s|
  {
    if s == "" then ""
    else if s[0] == '\\' then ['\\'] + AfterBackslash(s[1..])
    else if s[0] == '\'' then "''" + Escaped(s[1..])
    else [s[0]] + Escaped(s[1..])
  }

  function AfterBackslash(s: string): (r: string)
    ensures |r| <= 2 * |s| + 1
  {
    if s == "" then "\\" else [s[0]] + Escaped(s[1..])
  }

  /** What is written for the rest of the option, after an odd or even number of backslashes. */
  function EscapedFrom(odd: bool, s: string): string {
    if odd then AfterBackslash(s) else Escaped(s)
  }

  lemma EscapeStep(to: string, odd: bool, s: string)
    requires s != ""
    ensures var c := s[0];
            to + EscapedFrom(odd, s)
            == to + (if c == '\'' && !odd then [c] + [c] else [c]) + EscapedFrom(c == '\\' && !odd, s[1..])
  {
    var c, rest := s[0], EscapedFrom(s[0] == '\\' && !odd, s[1..]);
    assert to + ([c] + rest) == to + [c] + rest;
    assert to + ("''" + rest) == to + "''" + rest;
  }

  /** `field_escape`: one pass that only keeps the parity of the backslashes just seen. */
  method FieldEscapeLoop(source: string) returns (to: string)
    ensures to == Escaped(source)
  {
    hide EscapedFrom, Escaped;
    to := "";
    var endBackslashes := false;
    EscapeBounds(source);
    for i := 0 to |source|
      invariant Escaped(source) == to + EscapedFrom(endBackslashes, source[i..])
    {
      var c := source[i];
      EscapeStep(to, endBackslashes, source[i..]);
      assert source[i..][1..] == source[i + 1..];
      ghost var before := to;
      to := to + [c];
      if c == '\\' {
        endBackslashes := !endBackslashes;
      } else {
        if c == '\'' && !endBackslashes {
          to := to + [c];
          assert to == before + ([c] + [c]);
        }
        endBackslashes := false;
      }
    }
    assert source[|source|..] == "";
    if endBackslashes {
      to := to + "\\";
    }
  }

  lemma EscapeBounds(s: string)
    ensures Escaped(s) == "" + EscapedFrom(false, s[0..])
    ensures EscapedFrom(false, "") == "" && EscapedFrom(true, "") == "\\"
  {
    assert s[0..] == s;
  }

  predicate IsHex(value: string) {
    |value| > 1 && value[0] == '0' && (value[1] == 'x' || value[1] == 'X')
  }

  /** `add_load_option` for an option that is set. */
  method AddLoadOption(statement: string, value: string) returns (r: string)
    ensures r == " " + statement + " " + if IsHex(value) then value else "'" + Escaped(value) + "'"
  {
    if IsHex(value) {
      r := " " + statement + " " + value;
    } else {
      var escaped := FieldEscapeLoop(value);
      r := " " + statement + " '" + escaped + "'";
    }
  }

  // ----- the reader -----

  function Unescape1(c: char): string {
    if c == 'n' then "\n"
    else if c == 't' then "\t"
    else if c == 'r' then "\r"
    else if c == 'b' then [8 as char]
    else if c == '0' then "\0"
    else if c == 'Z' then [26 as char]
    else if c == '_' || c == '%' then ['\\', c]
    else [c]
  }

  /** `my_unescape`, for text between single quotes. */
  function Unescape(s: string): string {
    if s == "" then ""
    else if s[0] == '\\' && |s| > 1 then Unescape1(s[1]) + Unescape(s[2..])
    else if s[0] == '\'' && |s| > 1 then "'" + Unescape(s[2..])
    else [s[0]] + Unescape(s[1..])
  }

  /** Where `get_text` finds the closing quote of a literal, after the opening one. */
  function ClosingQuote(s: string): (r: Option<nat>)
    ensures r.Some? ==> r.value < |s|
  {
    if s == "" then None
    else if s[0] == '\\' then (if |s| == 1 then None else Shift(ClosingQuote(s[2..]), 2))
    else if s[0] == '\'' then (if |s| > 1 && s[1] == '\'' then Shift(ClosingQuote(s[2..]), 2) else Some(0))
    else Shift(ClosingQuote(s[1..]), 1)
  }

  function Shift(r: Option<nat>, n: nat): Option<nat> {
    if r.None? then None else Some(r.value + n)
  }

  /** `get_text`: the literal's value and where it ends, or an unexpected end of the query. */
  method GetText(query: string) returns (r: Option<(string, nat)>)
    ensures ClosingQuote(query).None? ==> r.None?
    ensures ClosingQuote(query).Some? ==>
              r == Some((Unescape(query[..ClosingQuote(query).value]), ClosingQuote(query).value + 1))
  {
    hide Unescape, ClosingQuote;
    var at, foundEscape := 0, false;
    assert query[0..] == query;
    NoShift(ClosingQuote(query), 0);
    while at < |query|
      invariant at <= |query| && ClosingQuote(query) == Shift(ClosingQuote(query[at..]), at)
      invariant !foundEscape ==> forall i | 0 <= i < at :: query[i] != '\\' && query[i] != '\''
    {
      QuoteStep(query[at..]);
      var c := query[at];
      at := at + 1;
      assert query[at - 1..][1..] == query[at..];
      if c == '\\' {
        foundEscape := true;
        if at == |query| {
          return None;
        }
        at := at + 1;
        assert query[at - 2..][2..] == query[at..];
      } else if c == '\'' {
        if at < |query| && query[at] == '\'' {
          foundEscape := true;
          at := at + 1;
          assert query[at - 2..][2..] == query[at..];
        } else {
          var text := query[..at - 1];
          if foundEscape {
            text := UnescapeLoop(text);
          } else {
            PlainText(text);
          }
          return Some((text, at));
        }
      }
    }
    NoQuote(query[at..]);
    return None;
  }

  lemma NoShift(r: Option<nat>, n: nat)
    requires n == 0
    ensures Shift(r, n) == r
  {
  }

  lemma QuoteStep(s: string)
    requires s != ""
    ensures ClosingQuote(s) ==
            if s[0] == '\\' then (if |s| == 1 then None else Shift(ClosingQuote(s[2..]), 2))
            else if s[0] == '\'' then (if |s| > 1 && s[1] == '\'' then Shift(ClosingQuote(s[2..]), 2) else Some(0))
            else Shift(ClosingQuote(s[1..]), 1)
  {
  }

  lemma NoQuote(s: string)
    requires s == ""
    ensures ClosingQuote(s).None?
  {
  }

  lemma {:induction false} PlainText(s: string)
    requires forall i | 0 <= i < |s| :: s[i] != '\\' && s[i] != '\''
    ensures Unescape(s) == s
  {
    if s != "" {
      PlainText(s[1..]);
    }
  }

  method UnescapeLoop(s: string) returns (to: string)
    ensures to == Unescape(s)
  {
    hide Unescape;
    to := "";
    var at := 0;
    assert s[0..] == s;
    while at < |s|
      invariant at <= |s| && Unescape(s) == to + Unescape(s[at..])
    {
      ghost var rest := s[at..];
      UnescapeStep(rest);
      var x, n := [s[at]], 1;
      if s[at] == '\\' && at + 1 != |s| {
        x, n := Unescape1(s[at + 1]), 2;
      } else if s[at] == '\'' && at + 1 != |s| {
        n := 2;
      }
      assert rest[n..] == s[at + n..];
      assert to + (x + Unescape(rest[n..])) == to + x + Unescape(rest[n..]);
      to := to + x;
      at := at + n;
    }
    UnescapeNothing(s[at..]);
  }

  lemma UnescapeStep(s: string)
    requires s != ""
    ensures Unescape(s) ==
            if s[0] == '\\' && |s| > 1 then Unescape1(s[1]) + Unescape(s[2..])
            else if s[0] == '\'' && |s| > 1 then [s[0]] + Unescape(s[2..])
            else [s[0]] + Unescape(s[1..])
  {
  }

  lemma UnescapeNothing(s: string)
    requires s == ""
    ensures Unescape(s) == ""
  {
  }

  // ----- what is written is read -----

  /** What an option stands for: its escapes interpreted, while a quote, and a backslash with nothing
      after it, stand for themselves. */
  function Denoted(s: string): string {
    if s == "" then ""
    else if s[0] == '\\' && |s| > 1 then Unescape1(s[1]) + Denoted(s[2..])
    else [s[0]] + Denoted(s[1..])
  }

  /** The literal ends at the quote put after it, whatever the option and whatever follows. */
  lemma {:induction false} LiteralEnds(s: string, t: string)
    requires t != "" && t[0] == '\'' && (|t| == 1 || t[1] != '\'')
    ensures ClosingQuote(Escaped(s) + t) == Some(|Escaped(s)|)
  {
    var text := Escaped(s) + t;
    if s == "" {
      assert text == t;
    } else if s[0] == '\\' {
      var left := if |s| == 1 then "" else s[2..];
      assert |s| > 1 ==> s[1..][1..] == left;
      LiteralEnds(left, t);
      assert text[2..] == Escaped(left) + t;
    } else {
      LiteralEnds(s[1..], t);
      var n := if s[0] == '\'' then 2 else 1;
      assert text[n..] == Escaped(s[1..]) + t;
    }
  }

  /** And it has the value the option stands for. */
  lemma {:induction false} LiteralDenotes(s: string)
    ensures Unescape(Escaped(s)) == Denoted(s)
  {
    var e := Escaped(s);
    if s == "" {
    } else if s[0] == '\\' {
      if |s| == 1 {
        assert s[1..] == "" && e == "\\\\" && e[2..] == "";
        assert Unescape(e) == Unescape1('\\') + Unescape("");
      } else {
        assert s[1..][1..] == s[2..];
        LiteralDenotes(s[2..]);
        assert e == [s[0], s[1]] + Escaped(s[2..]);
        assert e[2..] == Escaped(s[2..]);
      }
    } else {
      LiteralDenotes(s[1..]);
      var n := if s[0] == '\'' then 2 else 1;
      assert e[n..] == Escaped(s[1..]);
    }
  }

  /** An option written and read back: its value, and nothing left of the literal. */
  method WriteThenRead(s: string, more: string) returns (r: Option<(string, nat)>)
    requires more == "" || more[0] != '\''
    ensures r == Some((Denoted(s), |Escaped(s)| + 1))
  {
    var e := FieldEscapeLoop(s);
    LiteralEnds(s, "'" + more);
    LiteralDenotes(s);
    assert e + "'" + more == e + ("'" + more);
    assert (e + "'" + more)[..|e|] == e;
    r := GetText(e + "'" + more);
  }
}
