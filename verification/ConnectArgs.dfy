/** The arguments of a connect command in Oracle style (client/mysql.cc): `rewrite_by_oracle` blanks the
    separators of user/password@host:port in place, and `get_arg_string` and `get_arg_by_index` cut the
    arguments off one by one, a NUL after each. */
module ConnectArgs {
  import opened Common

  /** The line buffer: zero-filled before the line is put in, which leaves room for two NULs. */
  ghost predicate Terminated(s: string) {
    |s| >= 2 && s[|s| - 2] == NUL && s[|s| - 1] == NUL
  }

  /** A line that does not fill the buffer up to these. */
  ghost predicate Roomy(s: string) {
    |s| >= 3 && s[|s| - 3] == NUL && Terminated(s)
  }

  // ----- scanning -----

  predicate NotSpace(c: char) { !IsSpace(c) }
  predicate SpaceOrNul(c: char) { IsSpace(c) || c == NUL }
  predicate IsNul(c: char) { c == NUL }
  predicate BlankOrNul(c: char) { c == ' ' || c == NUL }
  predicate SlashOrNul(c: char) { c == '/' || c == NUL }
  predicate ColonOrNul(c: char) { c == ':' || c == NUL }
  predicate BracketOrNul(c: char) { c == ']' || c == NUL }
  predicate NotDigit(c: char) { c < '0' || c > '9' }

  /** The first place from `i` on where `stop` holds. */
  ghost function Until(s: string, i: nat, stop: char -> bool): (j: nat)
    requires i <= |s|
    ensures i <= j <= |s| && (j < |s| ==> stop(s[j])) && forall k | i <= k < j :: !stop(s[k])
    decreases |s| - i
  {
    if i == |s| || stop(s[i]) then i else Until(s, i + 1, stop)
  }

  lemma UntilIs(s: string, i: nat, stop: char -> bool, j: nat)
    requires i <= j < |s| && stop(s[j]) && forall k | i <= k < j :: !stop(s[k])
    ensures Until(s, i, stop) == j
  {
  }

  lemma UntilInside(s: string, i: nat, stop: char -> bool)
    requires Terminated(s) && stop(NUL) && i < |s|
    ensures Until(s, i, stop) < |s| && (i <= |s| - 2 ==> Until(s, i, stop) <= |s| - 2)
    ensures Roomy(s) && i <= |s| - 3 ==> Until(s, i, stop) <= |s| - 3
  {
  }

  method ScanUntil(buf: array<char>, i: nat, stop: char -> bool) returns (j: nat)
    requires Terminated(buf[..]) && stop(NUL) && i < buf.Length
    ensures j == Until(buf[..], i, stop) && j < buf.Length
  {
    UntilInside(buf[..], i, stop);
    j := i;
    while !stop(buf[j])
      invariant i <= j <= Until(buf[..], i, stop)
      decreases buf.Length - j
    {
      j := j + 1;
    }
  }

  // ----- rewriting the connect string -----

  /** Past the command. */
  ghost function CommandEnd(s: string): (p: nat)
    requires Terminated(s)
    ensures p < |s|
  {
    var a := Until(s, 0, NotSpace);
    UntilInside(s, 0, NotSpace);
    UntilInside(s, a, SpaceOrNul);
    if s[a] == '\\' then a + 2 else Until(s, a, SpaceOrNul)
  }

  /** The first separator outside double quotes: the end of the user's name, where a tenant may follow,
      or of the password. */
  ghost function FieldEnd(s: string, i: nat, quoted: bool, user: bool): (j: nat)
    requires Terminated(s) && i < |s|
    ensures i <= j < |s|
    decreases |s| - i
  {
    if s[i] == NUL then i
    else if s[i] == '"' then FieldEnd(s, i + 1, !quoted, user)
    else if !quoted && (if user then (s[i] == '/' || s[i] == '@') && s[i + 1] != NUL else s[i] == '@') then i
    else FieldEnd(s, i + 1, quoted, user)
  }

  /** Where the host starts, its leading slashes and brackets blanked. */
  ghost function BlankSlashes(s: string, h: nat): (r: (string, nat))
    requires Terminated(s) && h <= |s| - 2
    ensures Terminated(r.0) && |r.0| == |s| && h <= r.1 <= |s| - 2 && (Roomy(s) ==> Roomy(r.0))
  {
    if s[h] == '/' && s[h + 1] == '/' then (s[h := ' '][h + 1 := ' '], h + 2) else (s, h)
  }

  ghost function BlankBrackets(s: string, h: nat): (r: (string, nat))
    requires Terminated(s) && h <= |s| - 2
    ensures Terminated(r.0) && |r.0| == |s| && h <= r.1 <= |s| - 2 && (Roomy(s) ==> Roomy(r.0))
  {
    if s[h] != '[' then (s, h)
    else
      var t := s[h := ' '];
      UntilInside(t, h + 1, BracketOrNul);
      var b := Until(t, h + 1, BracketOrNul);
      if t[b] == ']' then (t[b := ' '], b + 1) else (t, b)
  }

  /** The host and the port. */
  ghost function BlankPort(s: string, h: nat): (r: (int, string))
    requires Terminated(s) && h <= |s| - 2
    ensures Terminated(r.1) && |r.1| == |s| && (Roomy(s) ==> Roomy(r.1))
  {
    UntilInside(s, h, ColonOrNul);
    var colon := Until(s, h, ColonOrNul);
    var t, digits := if s[colon] == ':' then s[colon := ' '] else s, if s[colon] == ':' then colon + 1 else colon;
    UntilInside(t, digits, NotDigit);
    var d := Until(t, digits, NotDigit);
    if t[d] == NUL then (1, t) else (-1, t[d := ' '])
  }

  /** From the password on. */
  ghost function RewriteRest(s: string, p: nat): (r: (int, string))
    requires Terminated(s) && p <= |s| - 2
    ensures Terminated(r.1) && |r.1| == |s| && (Roomy(s) ==> Roomy(r.1))
  {
    var e := FieldEnd(s, p, false, false);
    if s[e] == NUL then (1, s)
    else
      var (s2, h) := BlankSlashes(s[e := ' '], e + 1);
      var (s3, h') := BlankBrackets(s2, h);
      BlankPort(s3, h')
  }

  /** From the end of the user's name on. */
  ghost function RewriteFrom(s: string, u: nat): (r: (int, string))
    requires Terminated(s) && u < |s|
    ensures Terminated(r.1) && |r.1| == |s| && (Roomy(s) ==> Roomy(r.1))
  {
    UntilInside(s, u, SlashOrNul);
    var slash := Until(s, u, SlashOrNul);
    if s[u] == NUL then (0, s)
    else if s[slash] == NUL then (1, s)
    else
      RewriteRest(s[slash := ' '], slash + 1)
  }

  /** `rewrite_by_oracle`. */
  ghost function Rewrite(s: string): (r: (int, string))
    requires Terminated(s)
    ensures Terminated(r.1) && |r.1| == |s| && (Roomy(s) ==> Roomy(r.1))
  {
    RewriteFrom(s, FieldEnd(s, CommandEnd(s), false, true))
  }

  // ----- taking arguments -----

  /** Where `get_arg_string` looks for an argument: after the command, or after the next NUL. */
  ghost function ArgFrom(s: string, p: nat, next: bool): (at: nat)
    requires Terminated(s) && p <= |s| - 2
    ensures at < |s|
  {
    UntilInside(s, p, IsNul);
    var n := Until(s, p, IsNul);
    if !next then CommandEnd(s) else if s[n + 1] != NUL then n + 1 else n
  }

  /** Where the argument starts and ends, and the line with a NUL after it. */
  ghost function ArgAt(s: string, at: nat): (r: (nat, nat, string))
    requires Terminated(s) && at <= |s| - 2
    ensures r.0 <= r.1 < |s| && Terminated(r.2) && |r.2| == |s| && (Roomy(s) ==> Roomy(r.2))
  {
    UntilInside(s, at, NotSpace);
    var b := Until(s, at, NotSpace);
    UntilInside(s, b, BlankOrNul);
    var e := Until(s, b, BlankOrNul);
    (b, e, if s[e] == ' ' then s[e := NUL] else s)
  }

  /** `get_arg_string`. */
  ghost function GetArg(s: string, p: nat, next: bool): (r: Option<(nat, nat, string)>)
    requires Terminated(s) && p <= |s| - 2
    ensures r.Some? ==> r.value.0 <= r.value.1 < |s| && Terminated(r.value.2) && |r.value.2| == |s|
    ensures r.Some? && Roomy(s) ==> Roomy(r.value.2)
  {
    var at := ArgFrom(s, p, next);
    if s[at] == NUL then None else Some(ArgAt(s, at))
  }

  /** One turn of `get_arg_by_index`: to the next word, also past a single NUL; or to the end. */
  ghost function NextWord(s: string, p: nat): (r: (nat, bool))
    requires Terminated(s) && p <= |s| - 2
    ensures r.0 < |s| && (r.1 ==> r.0 <= |s| - 2)
  {
    UntilInside(s, p, SpaceOrNul);
    var w := Until(s, p, SpaceOrNul);
    UntilInside(s, w, NotSpace);
    var q := Until(s, w, NotSpace);
    if s[q] != NUL then (q, true) else (q + 1, s[q + 1] != NUL)
  }

  ghost function WordAt(s: string, p: nat, index: nat): (q: nat)
    requires Terminated(s) && p <= |s| - 2
    ensures q < |s|
    decreases index
  {
    if index == 0 then p
    else
      var (q, more) := NextWord(s, p);
      if more then WordAt(s, q, index - 1) else q
  }

  lemma {:induction false} WordInside(s: string, p: nat, index: nat)
    requires Roomy(s) && p <= |s| - 3
    ensures WordAt(s, p, index) <= |s| - 2
    decreases index
  {
    if index > 0 {
      var w := Until(s, p, SpaceOrNul);
      UntilInside(s, p, SpaceOrNul);
      UntilInside(s, w, NotSpace);
      if NextWord(s, p).1 {
        WordInside(s, NextWord(s, p).0, index - 1);
      }
    }
  }

  // ----- a connect string -----

  /** Where its fields are: the command, the user, the password, the host and the port. */
  datatype Places = Places(lead: nat, cmd: nat, user: nat, slash: nat, at: nat, host: nat, colon: nat, end: nat)

  predicate Visible(c: char) {
    !IsSpace(c) && c != NUL
  }

  /** A password, which may stand in double quotes, and then hold the separator. */
  predicate PasswordText(p: string) {
    || ('"' !in p && '@' !in p)
    || (|p| >= 2 && p[0] == '"' == p[|p| - 1] && '"' !in p[1..|p| - 1])
  }

  /** command user/password@[//]host:port, every field non-empty; the user may name a tenant after `@`.
      The command is a word, or a backslash and one character, which needs no space after it. */
  ghost predicate Spelled(s: string, o: Places) {
    && o.lead < o.cmd <= o.user < o.slash && o.slash + 1 < o.at < o.host < o.colon
    && o.colon + 1 < o.end && o.end + 2 <= |s|
    && (if s[o.lead] == '\\' then o.cmd == o.lead + 2 else o.cmd < o.user)
    && s[o.slash] == '/' && s[o.at] == '@' && s[o.colon] == ':' && s[o.host] != '['
    && (o.host == o.at + 1 || (o.host == o.at + 3 && s[o.at + 1] == '/' && s[o.at + 2] == '/'))
    && (forall i | 0 <= i < o.lead :: IsSpace(s[i]))
    && (forall i | o.lead <= i < o.cmd :: Visible(s[i]))
    && (forall i | o.cmd <= i < o.user :: IsSpace(s[i]))
    && (forall i | o.user <= i < o.slash :: Visible(s[i]) && s[i] != '/' && s[i] != '"')
    && (forall i | o.slash < i < o.at :: Visible(s[i])) && PasswordText(s[o.slash + 1..o.at])
    && (forall i | o.host <= i < o.colon :: Visible(s[i]) && s[i] != '/' && s[i] != ':')
    && (forall i | o.colon < i < o.end :: '0' <= s[i] <= '9')
    && (forall i | o.end <= i < |s| :: s[i] == NUL)
  }

  /** The same with its separators blanked. */
  ghost predicate Blanked(s: string, o: Places, t: string) {
    |t| == |s| && forall i | 0 <= i < |s| ::
      t[i] == if i == o.slash || o.at <= i < o.host || i == o.colon then ' ' else s[i]
  }

  lemma {:induction false} FieldEndIs(s: string, i: nat, user: bool, j: nat)
    requires Terminated(s) && i <= j <= |s| - 2
    requires forall k | i <= k < j :: s[k] != NUL && s[k] != '"' && s[k] != '@' && (user ==> s[k] != '/')
    requires if user then (s[j] == '/' || s[j] == '@') && s[j + 1] != NUL else s[j] == '@'
    ensures FieldEnd(s, i, false, user) == j
    decreases j - i
  {
    if i < j {
      FieldEndIs(s, i + 1, user, j);
    }
  }

  predicate SeparatorOrNul(c: char) { c == '/' || c == '@' || c == NUL }

  lemma CommandEndIs(s: string, o: Places, t: string)
    requires Spelled(s, o) && |t| == |s| && Terminated(t) && forall i | 0 <= i <= o.cmd :: t[i] == s[i]
    ensures CommandEnd(t) == o.cmd
  {
    UntilIs(t, 0, NotSpace, o.lead);
    if t[o.lead] != '\\' {
      UntilIs(t, o.lead, SpaceOrNul, o.cmd);
    }
  }

  /** The name ends at the slash, also when a tenant is named before it. */
  lemma UserEnds(s: string, o: Places)
    requires Spelled(s, o) && Terminated(s)
    ensures var u := FieldEnd(s, CommandEnd(s), false, true);
            u < |s| && s[u] != NUL && Until(s, u, SlashOrNul) == o.slash
  {
    CommandEndIs(s, o, s);
    var u := Until(s, o.cmd, SeparatorOrNul);
    assert u <= o.slash;
    FieldEndIs(s, o.cmd, true, u);
    UntilIs(s, u, SlashOrNul, o.slash);
  }

  /** Inside quotes nothing separates. */
  lemma {:induction false} QuotedEndIs(s: string, i: nat, j: nat)
    requires Terminated(s) && i <= j && j + 1 <= |s| - 2
    requires (forall k | i <= k < j :: s[k] != NUL && s[k] != '"') && s[j] == '"' && s[j + 1] == '@'
    ensures FieldEnd(s, i, true, false) == j + 1
    decreases j - i
  {
    if i < j {
      QuotedEndIs(s, i + 1, j);
    }
  }

  lemma PasswordEnds(s: string, o: Places)
    requires Spelled(s, o) && Terminated(s)
    ensures FieldEnd(s[o.slash := ' '], o.slash + 1, false, false) == o.at
  {
    PasswordEndIs(s[o.slash := ' '], o.slash + 1, o.at);
  }

  lemma PasswordEndIs(t: string, i: nat, j: nat)
    requires Terminated(t) && i < j <= |t| - 2 && t[j] == '@'
    requires PasswordText(t[i..j]) && forall k | i <= k < j :: t[k] != NUL
    ensures FieldEnd(t, i, false, false) == j
  {
    var p := t[i..j];
    assert forall k | i <= k < j :: t[k] == p[k - i];
    if '"' !in p {
      FieldEndIs(t, i, false, j);
    } else {
      assert forall k | i < k < j - 1 :: t[k] == p[1..|p| - 1][k - i - 1];
      QuotedEndIs(t, i + 1, j - 1);
    }
  }

  lemma SlashesBlanked(s: string, o: Places)
    requires Spelled(s, o) && Terminated(s)
    ensures var (s2, h) := BlankSlashes(s[o.slash := ' '][o.at := ' '], o.at + 1);
            h == o.host && BlankBrackets(s2, h) == (s2, h) && Blanked(s, o, s2[o.colon := ' '])
            && forall i | o.host <= i < |s| :: s2[i] == s[i]
  {
  }

  lemma PortBlanked(s: string, o: Places, s2: string)
    requires Spelled(s, o) && |s2| == |s| && Terminated(s2) && forall i | o.host <= i < |s| :: s2[i] == s[i]
    ensures BlankPort(s2, o.host) == (1, s2[o.colon := ' '])
  {
    UntilIs(s2, o.host, ColonOrNul, o.colon);
    UntilIs(s2[o.colon := ' '], o.colon + 1, NotDigit, o.end);
  }

  /** Rewriting blanks the separators and nothing else. */
  lemma RewriteBlanks(s: string, o: Places)
    requires Spelled(s, o) && Terminated(s)
    ensures Rewrite(s).0 == 1 && Blanked(s, o, Rewrite(s).1)
  {
    hide FieldEnd, CommandEnd, BlankSlashes, BlankBrackets, BlankPort, Blanked;
    UserEnds(s, o);
    PasswordEnds(s, o);
    SlashesBlanked(s, o);
    PortBlanked(s, o, BlankSlashes(s[o.slash := ' '][o.at := ' '], o.at + 1).0);
  }

  // ----- its arguments -----

  /** The blanked line with NULs put after the first `n` arguments. */
  ghost predicate Cut(s: string, o: Places, n: nat, t: string)
    requires Spelled(s, o)
  {
    && |t| == |s| && Terminated(t)
    && (forall i | 0 <= i < |s| && i != o.slash && !(o.at <= i < o.host) && i != o.colon :: t[i] == s[i])
    && t[o.slash] == (if n > 0 then NUL else ' ') && t[o.at] == (if n > 1 then NUL else ' ')
    && t[o.colon] == (if n > 2 then NUL else ' ')
    && forall i | o.at < i < o.host :: t[i] == ' '
  }

  lemma FirstArg(s: string, o: Places, t: string)
    requires Spelled(s, o) && Cut(s, o, 0, t)
    ensures var r := GetArg(t, 0, false);
            r.Some? && r.value.0 == o.user && r.value.1 == o.slash && Cut(s, o, 1, r.value.2)
  {
    CommandEndIs(s, o, t);
    UntilIs(t, o.cmd, NotSpace, o.user);
    UntilIs(t, o.user, BlankOrNul, o.slash);
  }

  /** A word ends at `w`, and the text goes on at `q`, or behind a NUL there. */
  lemma WordAfter(t: string, p: nat, w: nat, q: nat)
    requires Terminated(t) && p <= w <= q <= |t| - 2
    requires (forall i | p <= i < w :: !SpaceOrNul(t[i])) && SpaceOrNul(t[w])
    requires (forall i | w <= i < q :: IsSpace(t[i])) && !IsSpace(t[q])
    ensures NextWord(t, p) == if t[q] != NUL then (q, true) else (q + 1, t[q + 1] != NUL)
  {
    UntilIs(t, p, SpaceOrNul, w);
    UntilIs(t, w, NotSpace, q);
  }

  /** After leading space the command counts as a word of its own. */
  lemma LeadWord(s: string, o: Places, n: nat, t: string)
    requires Spelled(s, o) && Cut(s, o, n, t) && o.lead > 0
    ensures NextWord(t, 0) == (o.lead, true)
  {
    hide NextWord;
    WordAfter(t, 0, 0, o.lead);
  }

  /** After the command comes the user; but without a space between, both are one word. */
  lemma CommandWord(s: string, o: Places, n: nat, t: string)
    requires Spelled(s, o) && Cut(s, o, n, t) && n > 0
    ensures NextWord(t, o.lead) == (if o.cmd < o.user then o.user else o.slash + 1, true)
  {
    hide NextWord;
    if o.cmd < o.user {
      WordAfter(t, o.lead, o.cmd, o.user);
    } else {
      WordAfter(t, o.lead, o.slash, o.slash);
    }
  }

  lemma UserWord(s: string, o: Places, n: nat, t: string)
    requires Spelled(s, o) && Cut(s, o, n, t) && n > 0
    ensures NextWord(t, o.user) == (o.slash + 1, true)
  {
    hide NextWord;
    WordAfter(t, o.user, o.slash, o.slash);
  }

  lemma PasswordWord(s: string, o: Places, n: nat, t: string)
    requires Spelled(s, o) && Cut(s, o, n, t) && n > 1
    ensures NextWord(t, o.slash + 1) == (o.at + 1, true)
  {
    hide NextWord;
    WordAfter(t, o.slash + 1, o.at, o.at);
  }

  /** From a word on, the next argument is the one after the next NUL: the password, */
  lemma PasswordArg(s: string, o: Places, t: string, p: nat)
    requires Spelled(s, o) && Cut(s, o, 1, t) && p <= o.slash
    ensures var r := GetArg(t, p, true);
            r.Some? && r.value.0 == o.slash + 1 && r.value.1 == o.at && Cut(s, o, 2, r.value.2)
  {
    UntilIs(t, p, IsNul, o.slash);
    UntilIs(t, o.slash + 1, NotSpace, o.slash + 1);
    UntilIs(t, o.slash + 1, BlankOrNul, o.at);
  }

  /** the host, */
  lemma HostArg(s: string, o: Places, t: string, p: nat)
    requires Spelled(s, o) && Cut(s, o, 2, t) && o.slash < p <= o.at
    ensures var r := GetArg(t, p, true);
            r.Some? && r.value.0 == o.host && r.value.1 == o.colon && Cut(s, o, 3, r.value.2)
  {
    UntilIs(t, p, IsNul, o.at);
    UntilIs(t, o.at + 1, NotSpace, o.host);
    UntilIs(t, o.host, BlankOrNul, o.colon);
  }

  /** and the port. */
  lemma PortArg(s: string, o: Places, t: string, p: nat)
    requires Spelled(s, o) && Cut(s, o, 3, t) && o.at < p <= o.colon
    ensures var r := GetArg(t, p, true); r.Some? && r.value.0 == o.colon + 1 && r.value.1 == o.end
  {
    UntilIs(t, p, IsNul, o.colon);
    UntilIs(t, o.colon + 1, NotSpace, o.colon + 1);
    UntilIs(t, o.colon + 1, BlankOrNul, o.end);
  }

  // ----- in place -----

  method TakeArg(buf: array<char>, at: nat) returns (r: string)
    requires Terminated(buf[..]) && at <= buf.Length - 2
    modifies buf
    ensures var a := ArgAt(old(buf[..]), at); r == old(buf[..])[a.0..a.1] && buf[..] == a.2
  {
    ghost var s := buf[..];
    UntilInside(s, at, NotSpace);
    var start := ScanUntil(buf, at, NotSpace);
    var end := ScanUntil(buf, start, BlankOrNul);
    r := buf[start..end];
    if buf[end] == ' ' {
      buf[end] := NUL;
    }
  }

  /** `get_arg_string`. */
  method GetArgString(buf: array<char>, p: nat, next: bool) returns (r: Option<string>)
    requires Terminated(buf[..]) && p <= buf.Length - 2
    modifies buf
    ensures Terminated(buf[..])
    ensures match GetArg(old(buf[..]), p, next)
            case None => r.None? && buf[..] == old(buf[..])
            case Some(a) => r == Some(old(buf[..])[a.0..a.1]) && buf[..] == a.2
  {
    hide ArgAt;
    var at;
    if next {
      UntilInside(buf[..], p, IsNul);
      at := ScanUntil(buf, p, IsNul);
      if buf[at + 1] != NUL {
        at := at + 1;
      }
    } else {
      at := SkipCommand(buf);
    }
    if buf[at] == NUL {
      return None;
    }
    var arg := TakeArg(buf, at);
    r := Some(arg);
  }

  method SkipCommand(buf: array<char>) returns (p: nat)
    requires Terminated(buf[..])
    ensures p == CommandEnd(buf[..])
  {
    p := ScanUntil(buf, 0, NotSpace);
    UntilInside(buf[..], 0, NotSpace);
    if buf[p] == '\\' {
      p := p + 2;
    } else {
      p := ScanUntil(buf, p, SpaceOrNul);
    }
  }

  method ToNextWord(buf: array<char>, p: nat) returns (q: nat, more: bool)
    requires Terminated(buf[..]) && p <= buf.Length - 2
    ensures (q, more) == NextWord(buf[..], p)
  {
    UntilInside(buf[..], p, SpaceOrNul);
    q := ScanUntil(buf, p, SpaceOrNul);
    UntilInside(buf[..], q, NotSpace);
    q := ScanUntil(buf, q, NotSpace);
    more := true;
    if buf[q] == NUL {
      q := q + 1;
      more := buf[q] != NUL;
    }
  }

  /** `get_arg_by_index`, where the words do not run out at the very end of the buffer. */
  method GetArgByIndex(buf: array<char>, index: nat) returns (r: Option<string>)
    requires Terminated(buf[..]) && WordAt(buf[..], 0, index) <= buf.Length - 2
    modifies buf
    ensures Terminated(buf[..])
    ensures match GetArg(old(buf[..]), WordAt(old(buf[..]), 0, index), true)
            case None => r.None? && buf[..] == old(buf[..])
            case Some(a) => r == Some(old(buf[..])[a.0..a.1]) && buf[..] == a.2
  {
    hide GetArg, NextWord;
    ghost var s := buf[..];
    var p: nat, left: nat := 0, index;
    while left > 0
      invariant buf[..] == s && p <= |s| - 2 && WordAt(s, 0, index) == WordAt(s, p, left)
    {
      var more;
      p, more := ToNextWord(buf, p);
      if !more {
        r := GetArgString(buf, p, true);
        return;
      }
      left := left - 1;
    }
    r := GetArgString(buf, p, true);
  }

  /** The loop over a name or a password, quotes included. */
  method ScanField(buf: array<char>, i: nat, user: bool) returns (j: nat)
    requires Terminated(buf[..]) && i < buf.Length
    ensures j == FieldEnd(buf[..], i, false, user)
  {
    var inString := false;
    j := i;
    while buf[j] != NUL
      invariant j < buf.Length && FieldEnd(buf[..], i, false, user) == FieldEnd(buf[..], j, inString, user)
      decreases buf.Length - j
    {
      if buf[j] == '"' {
        inString := !inString;
      } else if !inString && (if user then (buf[j] == '/' || buf[j] == '@') && buf[j + 1] != NUL else buf[j] == '@') {
        return;
      }
      j := j + 1;
    }
  }

  method BlankBothSlashes(buf: array<char>, p: nat) returns (h: nat)
    requires Terminated(buf[..]) && p <= buf.Length - 2
    modifies buf
    ensures (buf[..], h) == BlankSlashes(old(buf[..]), p)
  {
    h := p;
    if buf[h] == '/' && buf[h + 1] == '/' {
      buf[h] := ' ';
      buf[h + 1] := ' ';
      h := h + 2;
    }
  }

  method BlankBothBrackets(buf: array<char>, p: nat) returns (h: nat)
    requires Terminated(buf[..]) && p <= buf.Length - 2
    modifies buf
    ensures (buf[..], h) == BlankBrackets(old(buf[..]), p)
  {
    h := p;
    if buf[h] == '[' {
      buf[h] := ' ';
      UntilInside(buf[..], h + 1, BracketOrNul);
      h := ScanUntil(buf, h + 1, BracketOrNul);
      if buf[h] == ']' {
        buf[h] := ' ';
        h := h + 1;
      }
    }
  }

  method BlankColon(buf: array<char>, h: nat) returns (r: int)
    requires Terminated(buf[..]) && h <= buf.Length - 2
    modifies buf
    ensures (r, buf[..]) == BlankPort(old(buf[..]), h)
  {
    UntilInside(buf[..], h, ColonOrNul);
    var p := ScanUntil(buf, h, ColonOrNul);
    if buf[p] == ':' {
      buf[p] := ' ';
      p := p + 1;
    }
    p := ScanUntil(buf, p, NotDigit);
    if buf[p] != NUL {
      buf[p] := ' ';
      return -1;
    }
    return 1;
  }

  /** `rewrite_by_oracle`. */
  method RewriteByOracle(buf: array<char>) returns (r: int)
    requires Terminated(buf[..])
    modifies buf
    ensures (r, buf[..]) == Rewrite(old(buf[..]))
  {
    hide FieldEnd, CommandEnd, BlankSlashes, BlankBrackets, BlankPort;
    var p := SkipCommand(buf);
    p := ScanField(buf, p, true);
    if buf[p] == NUL {
      return 0;
    }
    p := ScanUntil(buf, p, SlashOrNul);
    if buf[p] == NUL {
      return 1;
    }
    buf[p] := ' ';
    p := ScanField(buf, p + 1, false);
    if buf[p] == NUL {
      return 1;
    }
    buf[p] := ' ';
    p := BlankBothSlashes(buf, p + 1);
    p := BlankBothBrackets(buf, p);
    r := BlankColon(buf, p);
  }

  // ----- the arguments of a connect command -----

  lemma WordStep(t: string, p: nat, index: nat)
    requires Terminated(t) && p <= |t| - 2
    ensures WordAt(t, p, index + 1) == if NextWord(t, p).1 then WordAt(t, NextWord(t, p).0, index) else NextWord(t, p).0
    ensures WordAt(t, p, 0) == p
  {
  }

  /** Where the words counted from the command start. */
  lemma WordsFromCommand(s: string, o: Places, n: nat, t: string)
    requires Spelled(s, o) && Cut(s, o, n, t) && n > 0
    ensures WordAt(t, o.lead, 1) == if o.cmd < o.user then o.user else o.slash + 1
    ensures o.cmd < o.user ==> WordAt(t, o.lead, 2) == o.slash + 1
    ensures n > 1 ==> if o.cmd < o.user then WordAt(t, o.lead, 3) == o.at + 1 else WordAt(t, o.lead, 2) == o.at + 1
  {
    hide NextWord, WordAt;
    CommandWord(s, o, n, t);
    UserWord(s, o, n, t);
    if n > 1 {
      PasswordWord(s, o, n, t);
    }
    var c := if o.cmd < o.user then o.user else o.slash + 1;
    WordStep(t, o.lead, 0);
    WordStep(t, o.lead, 1);
    WordStep(t, o.lead, 2);
    WordStep(t, c, 0);
    WordStep(t, c, 1);
    WordStep(t, o.slash + 1, 0);
    WordStep(t, o.at + 1, 0);
  }

  /** Counted from the start of the line, leading space makes them one more. */
  lemma WordPlaces(s: string, o: Places, n: nat, t: string, index: nat)
    requires Spelled(s, o) && Cut(s, o, n, t) && n > 0 && index > 0
    ensures WordAt(t, 0, index) == if o.lead == 0 then WordAt(t, o.lead, index) else WordAt(t, o.lead, index - 1)
  {
    hide NextWord, WordAt;
    if o.lead > 0 {
      LeadWord(s, o, n, t);
      WordStep(t, 0, index - 1);
    }
  }

  /** The password is found again when it is looked for twice. */
  lemma PasswordAgain(s: string, o: Places, t: string, p: nat)
    requires Spelled(s, o) && Cut(s, o, 2, t) && p <= o.slash
    ensures GetArg(t, p, true) == Some((o.slash + 1, o.at, t))
  {
    UntilIs(t, p, IsNul, o.slash);
    assert ArgFrom(t, p, true) == o.slash + 1;
    hide ArgFrom;
    UntilIs(t, o.slash + 1, NotSpace, o.slash + 1);
    UntilIs(t, o.slash + 1, BlankOrNul, o.at);
    assert t[o.at] == NUL;
  }

  /** Nothing is found behind the last NUL. */
  lemma NoArg(s: string, o: Places, t: string)
    requires Spelled(s, o) && Cut(s, o, 1, t)
    ensures GetArg(t, o.slash + 1, true) == None
  {
    UntilIs(t, o.slash + 1, IsNul, o.end);
  }

  lemma BlankedIsCut(s: string, o: Places, t: string)
    requires Spelled(s, o) && Blanked(s, o, t) && Terminated(t)
    ensures Cut(s, o, 0, t)
  {
  }

  /** The arguments hold what the line said. */
  lemma SameField(s: string, o: Places, n: nat, t: string)
    requires Spelled(s, o) && Cut(s, o, n, t)
    ensures t[o.user..o.slash] == s[o.user..o.slash] && t[o.slash + 1..o.at] == s[o.slash + 1..o.at]
    ensures t[o.host..o.colon] == s[o.host..o.colon] && t[o.colon + 1..o.end] == s[o.colon + 1..o.end]
  {
  }

  /** The arguments found one after the other. */
  datatype Arguments =
    Arguments(user: Option<string>, password: Option<string>, host: Option<string>, port: Option<string>)

  ghost function ArgumentsSaid(s: string, o: Places): Arguments
    requires Spelled(s, o)
  {
    Arguments(Some(s[o.user..o.slash]), Some(s[o.slash + 1..o.at]), Some(s[o.host..o.colon]),
              Some(s[o.colon + 1..o.end]))
  }

  /** What is found: with the command and the user one word, the user only; with a word too many
      in front, the password for the host and the host for the port. */
  ghost function ArgumentsTaken(s: string, o: Places): Arguments
    requires Spelled(s, o)
  {
    var f := ArgumentsSaid(s, o);
    if o.lead == 0 && o.cmd == o.user then Arguments(f.user, None, None, None)
    else if o.lead > 0 && o.cmd < o.user then Arguments(f.user, f.password, f.password, f.host)
    else f
  }

  lemma TakenArguments(s: string, o: Places)
    requires Spelled(s, o)
    ensures ArgumentsTaken(s, o).user == ArgumentsSaid(s, o).user
    ensures ArgumentsTaken(s, o).password.None? ==>
              ArgumentsTaken(s, o) == Arguments(ArgumentsSaid(s, o).user, None, None, None)
  {
  }

  /** An argument as a string, and the line after it has been taken. */
  ghost predicate Takes(s: string, a: Option<(nat, nat, string)>, arg: Option<string>, t: string) {
    && a.Some? && arg.Some? && a.value.0 <= a.value.1 <= |s| && s[a.value.0..a.value.1] == arg.value && arg.value != ""
    && a.value.2 == t
  }

  lemma TakeUser(s: string, o: Places) returns (t1: string)
    requires Spelled(s, o) && Terminated(s)
    ensures Rewrite(s).0 == 1 && Cut(s, o, 1, t1)
    ensures Takes(Rewrite(s).1, GetArg(Rewrite(s).1, 0, false), ArgumentsSaid(s, o).user, t1)
  {
    hide GetArg, Rewrite, Blanked;
    RewriteBlanks(s, o);
    var t0 := Rewrite(s).1;
    BlankedIsCut(s, o, t0);
    FirstArg(s, o, t0);
    SameField(s, o, 0, t0);
    t1 := GetArg(t0, 0, false).value.2;
  }

  lemma PasswordPlace(s: string, o: Places, t: string)
    requires Spelled(s, o) && Cut(s, o, 1, t)
    ensures if o.lead == 0 && o.cmd == o.user then WordAt(t, 0, 1) == o.slash + 1 else WordAt(t, 0, 1) <= o.slash
  {
    hide WordAt, NextWord, Visible, IsSpace;
    WordsFromCommand(s, o, 1, t);
    WordPlaces(s, o, 1, t, 1);
    WordStep(t, o.lead, 0);
  }

  lemma TakePassword(s: string, o: Places, t1: string) returns (t2: string)
    requires Spelled(s, o) && Cut(s, o, 1, t1)
    ensures WordAt(t1, 0, 1) <= |t1| - 2
    ensures var a := GetArg(t1, WordAt(t1, 0, 1), true);
            if ArgumentsTaken(s, o).password.None? then a.None?
            else Takes(t1, a, ArgumentsTaken(s, o).password, t2) && Cut(s, o, 2, t2)
  {
    hide GetArg, WordAt, Visible, IsSpace;
    t2 := t1;
    PasswordPlace(s, o, t1);
    if o.lead == 0 && o.cmd == o.user {
      NoArg(s, o, t1);
    } else {
      PasswordArg(s, o, t1, WordAt(t1, 0, 1));
      SameField(s, o, 1, t1);
      t2 := GetArg(t1, WordAt(t1, 0, 1), true).value.2;
    }
  }

  lemma TakeHost(s: string, o: Places, t2: string) returns (t3: string)
    requires Spelled(s, o) && Cut(s, o, 2, t2) && ArgumentsTaken(s, o).password.Some?
    ensures WordAt(t2, 0, 2) <= |t2| - 2
    ensures Takes(t2, GetArg(t2, WordAt(t2, 0, 2), true), ArgumentsTaken(s, o).host, t3)
    ensures Cut(s, o, if o.lead > 0 && o.cmd < o.user then 2 else 3, t3)
  {
    hide GetArg, WordAt;
    WordsFromCommand(s, o, 2, t2);
    WordPlaces(s, o, 2, t2, 2);
    SameField(s, o, 2, t2);
    if o.lead > 0 && o.cmd < o.user {
      PasswordAgain(s, o, t2, WordAt(t2, 0, 2));
    } else {
      HostArg(s, o, t2, WordAt(t2, 0, 2));
    }
    t3 := GetArg(t2, WordAt(t2, 0, 2), true).value.2;
  }

  lemma TakePort(s: string, o: Places, t3: string) returns (t4: string)
    requires Spelled(s, o) && ArgumentsTaken(s, o).password.Some?
    requires Cut(s, o, if o.lead > 0 && o.cmd < o.user then 2 else 3, t3)
    ensures WordAt(t3, 0, 3) <= |t3| - 2
    ensures Takes(t3, GetArg(t3, WordAt(t3, 0, 3), true), ArgumentsTaken(s, o).port, t4)
  {
    hide GetArg, WordAt;
    var n := if o.lead > 0 && o.cmd < o.user then 2 else 3;
    WordsFromCommand(s, o, n, t3);
    WordPlaces(s, o, n, t3, 3);
    SameField(s, o, n, t3);
    if n == 2 {
      HostArg(s, o, t3, WordAt(t3, 0, 3));
    } else {
      PortArg(s, o, t3, WordAt(t3, 0, 3));
    }
    t4 := GetArg(t3, WordAt(t3, 0, 3), true).value.2;
  }

  // ----- what becomes of the arguments -----

  const PASSWORD_SIZE: nat := 128
  const TWO_TO_THE_32: nat := 0x1_0000_0000
  const TWO_TO_THE_64: nat := 0x1_0000_0000_0000_0000

  predicate IsDigit(c: char) { '0' <= c <= '9' }

  predicate AllDigits(t: string) {
    forall i | 0 <= i < |t| :: IsDigit(t[i])
  }

  /** The number that digits stand for. */
  function Number(t: string): nat
    requires AllDigits(t)
  {
    if t == "" then 0 else 10 * Number(t[..|t| - 1]) + (t[|t| - 1] as nat - '0' as nat)
  }

  /** `v` with the digits at the front of `t` after it. */
  function Accumulated(t: string, v: nat): nat {
    if t == "" || !IsDigit(t[0]) then v else Accumulated(t[1..], 10 * v + (t[0] as nat - '0' as nat))
  }

  /** `strtoull` to base 10 of a text without white space in front; none if out of range. */
  function Strtoull(t: string): Option<nat> {
    var signed := t != "" && (t[0] == '-' || t[0] == '+');
    var m := Accumulated(if signed then t[1..] else t, 0);
    if m >= TWO_TO_THE_64 then None
    else if signed && t[0] == '-' then Some((TWO_TO_THE_64 - m) % TWO_TO_THE_64)
    else Some(m)
  }

  lemma {:induction false} AccumulatedSnoc(t: string, c: char, v: nat)
    requires AllDigits(t) && IsDigit(c)
    ensures Accumulated(t + [c], v) == 10 * Accumulated(t, v) + (c as nat - '0' as nat)
  {
    if t == "" {
      assert (t + [c])[1..] == "";
    } else {
      assert (t + [c])[1..] == t[1..] + [c];
      AccumulatedSnoc(t[1..], c, 10 * v + (t[0] as nat - '0' as nat));
    }
  }

  lemma {:induction false} DigitsAccumulate(t: string)
    requires AllDigits(t)
    ensures Accumulated(t, 0) == Number(t)
  {
    if t != "" {
      hide Accumulated;
      var init, c := t[..|t| - 1], t[|t| - 1];
      DigitsAccumulate(init);
      AccumulatedSnoc(init, c, 0);
      assert init + [c] == t;
    }
  }

  /** Of digits the number they stand for is read. */
  lemma DigitsRead(t: string)
    requires AllDigits(t) && t != ""
    ensures Strtoull(t) == if Number(t) < TWO_TO_THE_64 then Some(Number(t)) else None
  {
    hide Accumulated, Number;
    DigitsAccumulate(t);
    assert IsDigit(t[0]);
  }

  /** What is copied of a password: without its quotes, if there is anything between them. */
  function Copied(p: string): string {
    if |p| > 2 && p[0] == '"' == p[|p| - 1] then p[1..|p| - 1] else p
  }

  /** What a password says. */
  function Meant(p: string): string {
    if |p| >= 2 && p[0] == '"' == p[|p| - 1] then p[1..|p| - 1] else p
  }

  datatype Fields = Fields(user: Option<string>, password: Option<string>, host: Option<string>, port: Option<nat>)

  /** The fields that are set; or a port is out of range, which ends the command; or a password does not fit
      its copy with a NUL after it, from where on nothing is defined. */
  datatype Outcome = Took(f: Fields) | PortRefused | Overrun

  ghost function Settled(a: Arguments): Outcome {
    if a.password.None? then Took(Fields(a.user, None, None, None))
    else if |Copied(a.password.value)| >= PASSWORD_SIZE then Overrun
    else
      var p := Some(Copied(a.password.value));
      if a.host.None? then Took(Fields(a.user, p, None, None))
      else if a.port.None? then Took(Fields(a.user, p, a.host, None))
      else
        var port := Strtoull(a.port.value);
        if port.None? then PortRefused else Took(Fields(a.user, p, a.host, Some(port.value % TWO_TO_THE_32)))
  }

  /** What the line says. */
  ghost function Said(s: string, o: Places): Fields
    requires Spelled(s, o)
  {
    Fields(Some(s[o.user..o.slash]), Some(Meant(s[o.slash + 1..o.at])), Some(s[o.host..o.colon]),
           Some(Number(s[o.colon + 1..o.end])))
  }

  /** What is taken from it. */
  ghost function Taken(s: string, o: Places): Outcome
    requires Spelled(s, o)
  {
    Settled(ArgumentsTaken(s, o))
  }

  /** The password fits its copy, and has something between its quotes; and the line either starts with the
      command and has a space after it, or has a space in front and none after the command, with a port of
      32 bits; or has a space at both places, the password for its host, and a host that reads as the port. */
  ghost predicate Regular(s: string, o: Places)
    requires Spelled(s, o)
  {
    var password, host, port := s[o.slash + 1..o.at], s[o.host..o.colon], Number(s[o.colon + 1..o.end]);
    && |Copied(password)| < PASSWORD_SIZE && password != "\"\""
    && if o.lead == 0 <==> o.cmd < o.user then port < TWO_TO_THE_32
       else o.lead > 0 && password == host && Strtoull(host).Some? && Strtoull(host).value % TWO_TO_THE_32 == port
  }

  /** So the four fields come back exactly from such lines. */
  lemma FieldsExactly(s: string, o: Places)
    requires Spelled(s, o)
    ensures Taken(s, o) == Took(Said(s, o)) <==> Regular(s, o)
  {
    hide Strtoull, Number, Copied, Meant, Settled;
    var password, host, port := s[o.slash + 1..o.at], s[o.host..o.colon], s[o.colon + 1..o.end];
    PortRead(port);
    SettledExactly(Some(s[o.user..o.slash]), password, host, port);
    SettledExactly(Some(s[o.user..o.slash]), password, password, host);
    CopiedExactly(password);
    UserOnly(Some(s[o.user..o.slash]));
  }

  lemma UserOnly(user: Option<string>)
    ensures Settled(Arguments(user, None, None, None)) == Took(Fields(user, None, None, None))
  {
  }

  lemma SettledExactly(user: Option<string>, password: string, host: string, port: string)
    ensures var a := Settled(Arguments(user, Some(password), Some(host), Some(port)));
            && (a.Took? <==> |Copied(password)| < PASSWORD_SIZE && Strtoull(port).Some?)
            && (a.Took? ==> a.f == Fields(user, Some(Copied(password)), Some(host),
                                          Some(Strtoull(port).value % TWO_TO_THE_32)))
  {
    hide Strtoull, Copied;
  }

  lemma CopiedExactly(p: string)
    ensures Copied(p) == Meant(p) <==> p != "\"\""
  {
    if |p| == 2 && p[0] == '"' == p[1] {
      assert p == "\"\"";
    }
  }

  /** A port is set to its number exactly if that has at most 32 bits. */
  lemma PortRead(port: string)
    requires AllDigits(port) && port != ""
    ensures var v := Strtoull(port);
            v.Some? && v.value % TWO_TO_THE_32 == Number(port) <==> Number(port) < TWO_TO_THE_32
  {
    hide Strtoull, Number;
    DigitsRead(port);
  }

  /** The copy of the password into its own buffer, if it fits with a NUL after it. */
  method CopyPassword(tmp: string) returns (r: Option<string>)
    ensures r == if |Copied(tmp)| < PASSWORD_SIZE then Some(Copied(tmp)) else None
  {
    var szbuf := new char[PASSWORD_SIZE](_ => NUL);
    var from, n := 0, |tmp|;
    if |tmp| > 2 && tmp[0] == '"' && tmp[|tmp| - 1] == '"' {
      from, n := 1, |tmp| - 2;
    }
    if n >= PASSWORD_SIZE {
      return None;
    }
    for i := 0 to n
      invariant szbuf[..i] == tmp[from..from + i] && szbuf[n] == NUL
    {
      szbuf[i] := tmp[from + i];
    }
    assert tmp[from..from + n] == Copied(tmp);
    r := Some(szbuf[..n]);
  }

  /** The arguments of `com_connect` in the order it takes them, and what it sets by them. */
  method ConnectFields(buf: array<char>, ghost o: Places) returns (r: Outcome)
    requires Terminated(buf[..]) && (Roomy(buf[..]) || Spelled(buf[..], o))
    modifies buf
    ensures Spelled(old(buf[..]), o) ==> r == Taken(old(buf[..]), o)
    ensures Spelled(old(buf[..]), o) ==> (r == Took(Said(old(buf[..]), o)) <==> Regular(old(buf[..]), o))
  {
    hide GetArg, WordAt, Rewrite, Spelled, Cut, ArgumentsTaken, ArgumentsSaid, Said, Regular, Roomy, Strtoull, Copied;
    ghost var s := buf[..];
    ghost var spelled := Spelled(s, o);
    ghost var t1, t2, t3, t4 := "", "", "", "";
    if spelled {
      TakenArguments(s, o);
      FieldsExactly(s, o);
      t1 := TakeUser(s, o);
      t2 := TakePassword(s, o, t1);
      if ArgumentsTaken(s, o).password.Some? {
        t3 := TakeHost(s, o, t2);
        t4 := TakePort(s, o, t3);
      }
    }
    r := Took(Fields(None, None, None, None));
    var rewritten := RewriteByOracle(buf);
    if rewritten != 1 {
      return;
    }
    var user := GetArgString(buf, 0, false);
    r := Took(Fields(user, None, None, None));
    if user.None? || user.value == "" {
      return;
    }
    Within(buf[..], 1, spelled);
    var arg := GetArgByIndex(buf, 1);
    if arg.None? || arg.value == "" {
      return;
    }
    var password := CopyPassword(arg.value);
    if password.None? {
      return Overrun;
    }
    r := Took(Fields(user, password, None, None));
    Within(buf[..], 2, spelled);
    var host := GetArgByIndex(buf, 2);
    if host.None? || host.value == "" {
      return;
    }
    r := Took(Fields(user, password, host, None));
    Within(buf[..], 3, spelled);
    var tmp := GetArgByIndex(buf, 3);
    if tmp.None? || tmp.value == "" {
      return;
    }
    var port := Strtoull(tmp.value);
    if port.None? {
      return PortRefused;
    }
    r := Took(Fields(user, password, host, Some(port.value % TWO_TO_THE_32)));
  }

  lemma Within(s: string, index: nat, known: bool)
    requires Terminated(s) && (known || Roomy(s))
    ensures known || WordAt(s, 0, index) <= |s| - 2
  {
    if !known {
      WordInside(s, 0, index);
    }
  }

  // ----- some lines -----

  /** The short command with the user right behind it: password, host and port are lost. */
  lemma ShortCommandAlone(s: string)
    requires s == "\\ru/p@h:1" + [NUL, NUL]
    ensures var o := Places(0, 2, 2, 3, 5, 6, 7, 9);
            Spelled(s, o) && Taken(s, o) == Took(Fields(Some("u"), None, None, None))
  {
    assert s[2..3] == "u" && s[4..5] == "p";
  }

  /** A vertical tab in front of the command, which nothing before this code drops: the password for the host,
      and a port of 0. */
  lemma TabBeforeCommand(s: string)
    requires s == [11 as char] + "conn u/p@h:1" + [NUL, NUL]
    ensures var o := Places(1, 5, 6, 7, 9, 10, 11, 13);
            Spelled(s, o) && Taken(s, o) == Took(Fields(Some("u"), Some("p"), Some("p"), Some(0)))
  {
    assert s[6..7] == "u" && s[8..9] == "p" && s[10..11] == "h";
    assert Strtoull("h") == Some(0);
  }

  /** A password as long as its copy, on a line that fits the line buffer. */
  lemma LongPassword(s: string, p: string)
    requires |p| == PASSWORD_SIZE && (forall i | 0 <= i < |p| :: p[i] == 'p')
    requires s == "conn u/" + p + "@h:1" + [NUL, NUL]
    ensures var o := Places(0, 4, 5, 6, 135, 136, 137, 139);
            Spelled(s, o) && Taken(s, o) == Overrun
  {
    assert s[7..135] == p;
    assert s == "conn u/" + (p + "@h:1" + [NUL, NUL]);
    assert s[135..] == "@h:1" + [NUL, NUL];
  }
}
