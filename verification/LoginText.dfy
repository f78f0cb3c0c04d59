/** The text of the login file, as mysql_config_editor edits it (client/mysql_config_editor.cc): login
    paths, each a header line and a line per option. The edits search and cut the text; shown here is
    what they do to the list of login paths. */
module LoginText {
  import opened Common

  // ----- searching -----

  ghost predicate Occurs(s: string, pat: string, k: nat) {
    k + |pat| <= |s| && forall i | 0 <= i < |pat| :: s[k + i] == pat[i]
  }

  /** `strstr`: where `pat` first occurs. */
  function Find(s: string, pat: string): (r: Option<nat>)
    ensures r.Some? ==> r.value + |pat| <= |s|
  {
    if pat <= s then Some(0)
    else if s == "" then None
    else
      var r := Find(s[1..], pat);
      if r.None? then None else Some(r.value + 1)
  }

  lemma OccursTail(s: string, pat: string, k: nat)
    requires 0 < k && s != ""
    ensures Occurs(s, pat, k) == Occurs(s[1..], pat, k - 1)
  {
    var t := s[1..];
    if k + |pat| <= |s| {
      if Occurs(s, pat, k) {
        forall i | 0 <= i < |pat| ensures t[k - 1 + i] == pat[i] {
          assert s[k + i] == pat[i];
        }
      } else {
        var i :| 0 <= i < |pat| && s[k + i] != pat[i];
        assert t[k - 1 + i] != pat[i];
      }
    }
  }

  lemma OccursFirst(s: string, pat: string)
    ensures pat <= s <==> Occurs(s, pat, 0)
  {
    if Occurs(s, pat, 0) {
      forall i | 0 <= i < |pat| ensures s[i] == pat[i] {
        assert s[0 + i] == pat[i];
      }
    }
  }

  lemma {:induction false} FindIsFirst(s: string, pat: string)
    ensures match Find(s, pat)
            case None => forall k: nat :: !Occurs(s, pat, k)
            case Some(k) => Occurs(s, pat, k) && forall j: nat | j < k :: !Occurs(s, pat, j)
  {
    if pat <= s {
      assert Occurs(s, pat, 0);
    } else if s != "" {
      FindIsFirst(s[1..], pat);
      assert !Occurs(s, pat, 0);
      forall k: nat | k > 0 ensures Occurs(s, pat, k) == Occurs(s[1..], pat, k - 1) {
        OccursTail(s, pat, k);
      }
    }
  }

  lemma NotHere(s: string, pat: string, j: nat)
    requires j < |s| && pat != ""
    requires s[j] != pat[0] || (j + 1 < |s| && |pat| > 1 && s[j + 1] != pat[1])
    ensures !Occurs(s, pat, j)
  {
    assert s[j + 0] != pat[0] || s[j + 1] != pat[1];
  }

  /** Where it does not occur need not be searched. */
  lemma {:induction false} FindSkip(s: string, pat: string, n: nat, rest: string)
    requires n <= |s| && rest == s[n..] && forall j: nat | j < n :: !Occurs(s, pat, j)
    ensures Find(s, pat) == if Find(rest, pat).None? then None else Some(n + Find(rest, pat).value)
    decreases n
  {
    if n == 0 {
      assert s[0..] == s;
    } else {
      assert !Occurs(s, pat, 0);
      forall j: nat | j < n - 1 ensures !Occurs(s[1..], pat, j) {
        OccursTail(s, pat, j + 1);
      }
      assert s[1..][n - 1..] == s[n..];
      FindSkip(s[1..], pat, n - 1, rest);
    }
  }

  // ----- login paths -----

  datatype Key = User | Password | Host | Socket | Port

  function KeyName(k: Key): string {
    match k
    case User => "user"
    case Password => "password"
    case Host => "host"
    case Socket => "socket"
    case Port => "port"
  }

  datatype Setting = Setting(key: Key, value: string)

  datatype Path = Path(name: string, settings: seq<Setting>)

  function Header(name: string): string {
    "[" + name + "]"
  }

  function Line(s: Setting): string {
    "\n" + KeyName(s.key) + " = " + s.value
  }

  function Lines(settings: seq<Setting>): string {
    if settings == [] then "" else Line(settings[0]) + Lines(settings[1..])
  }

  function Render(p: Path): string {
    Header(p.name) + Lines(p.settings) + "\n"
  }

  function Text(paths: seq<Path>): string {
    if paths == [] then "" else Render(paths[0]) + Text(paths[1..])
  }

  ghost predicate PlainName(name: string) {
    ']' !in name && '\n' !in name
  }

  ghost predicate Plain(p: Path) {
    PlainName(p.name) && forall i | 0 <= i < |p.settings| :: '\n' !in p.settings[i].value
  }

  ghost predicate AllPlain(paths: seq<Path>) {
    forall i | 0 <= i < |paths| :: Plain(paths[i])
  }

  // ----- the edits -----

  /** `locate_ob_login_path`: where the header line of `name` is. */
  function Locate(text: string, name: string): (r: Option<nat>)
    ensures r.Some? ==> r.value < |text|
  {
    if Header(name) <= text then Some(0)
    else
      var r := Find(text, "\n" + Header(name));
      if r.None? then None else Some(r.value + 1)
  }

  /** The length of the section at the start of `text`, up to the next header line. */
  ghost function SectionLength(text: string): (n: nat)
    ensures n <= |text|
  {
    var end := Find(text, "\n[");
    if end.None? then |text| else end.value
  }

  /** The text from a section on, without that section. */
  ghost function CutPath(tail: string): string {
    if SectionLength(tail) == |tail| then "" else tail[SectionLength(tail) + 1..]
  }

  /** `remove_ob_login_path`. */
  ghost function RemovePath(text: string, name: string): string {
    var start := Locate(text, name);
    if start.None? then text else text[..start.value] + CutPath(text[start.value..])
  }

  /** Where the line after the one that starts at `k` starts. */
  ghost function LineEnd(s: string, k: nat): (n: nat)
    requires k < |s|
    ensures k < n <= |s|
  {
    var end := Find(s[k + 1..], "\n");
    if end.None? then |s| else k + 1 + end.value
  }

  /** The text from a section on, without the first line of that section that starts with an option's name. */
  ghost function CutOption(tail: string, key: Key): string {
    var k := Find(tail, "\n" + KeyName(key));
    if k.None? || k.value + 1 >= SectionLength(tail) then tail
    else tail[..k.value] + tail[LineEnd(tail, k.value)..]
  }

  /** `ob_remove_option`. */
  ghost function RemoveOption(text: string, name: string, key: Key): string {
    var start := Locate(text, name);
    if start.None? then text else text[..start.value] + CutOption(text[start.value..], key)
  }

  /** The login paths without `name`. */
  ghost function Without(paths: seq<Path>, name: string): seq<Path> {
    if paths == [] then []
    else if paths[0].name == name then paths[1..]
    else [paths[0]] + Without(paths[1..], name)
  }

  ghost predicate HasKey(settings: seq<Setting>, key: Key) {
    settings != [] && (settings[0].key == key || HasKey(settings[1..], key))
  }

  ghost function DropSetting(settings: seq<Setting>, key: Key): seq<Setting> {
    if settings == [] then []
    else if settings[0].key == key then settings[1..]
    else [settings[0]] + DropSetting(settings[1..], key)
  }

  /** The login paths, `key` no longer set in `name`. */
  ghost function Drop(paths: seq<Path>, name: string, key: Key): seq<Path> {
    if paths == [] then []
    else if paths[0].name == name then [Path(name, DropSetting(paths[0].settings, key))] + paths[1..]
    else [paths[0]] + Drop(paths[1..], name, key)
  }

  // ----- the shape of the text -----

  /** No line of `s` but the first starts with a bracket. */
  ghost predicate OneSection(s: string) {
    forall k | 0 <= k < |s| - 1 :: !Opens(s, k)
  }

  ghost predicate Opens(s: string, k: nat)
    requires k + 1 < |s|
  {
    s[k] == '\n' && s[k + 1] == '['
  }

  lemma {:induction false} LinesShape(settings: seq<Setting>)
    requires forall i | 0 <= i < |settings| :: '\n' !in settings[i].value
    ensures OneSection(Lines(settings) + "\n")
    ensures Lines(settings) == "" || Lines(settings)[0] == '\n'
  {
    hide Line, KeyName;
    if settings != [] {
      LinesShape(settings[1..]);
      var line, rest := Line(settings[0]), Lines(settings[1..]) + "\n";
      assert Lines(settings) + "\n" == line + rest;
      LineIsOneLine(settings[0]);
      forall k | 0 <= k < |line + rest| - 1 ensures !Opens(line + rest, k) {
        assert k >= |line| ==> !Opens(rest, k - |line|);
      }
    }
  }

  lemma RenderShape(p: Path)
    requires Plain(p)
    ensures OneSection(Render(p)) && |Render(p)| > 1
    ensures Render(p)[0] == '[' && Render(p)[|Render(p)| - 1] == '\n'
  {
    LinesShape(p.settings);
    var head, rest := Header(p.name), Lines(p.settings) + "\n";
    assert Render(p) == head + rest;
    assert forall k | 0 <= k < |head| :: head[k] != '\n';
    forall k | 0 <= k < |head + rest| - 1 ensures !Opens(head + rest, k) {
      assert k >= |head| ==> !Opens(rest, k - |head|);
    }
  }

  lemma TextStart(paths: seq<Path>)
    ensures Text(paths) == "" || Text(paths)[0] == '['
  {
  }

  /** A header pattern is not in a section that another one may follow. */
  lemma FindAcross(r: string, t: string, pat: string)
    requires OneSection(r) && r != "" && r[|r| - 1] == '\n'
    requires |pat| >= 2 && pat[0] == '\n' && pat[1] == '['
    ensures Find(r + t, pat) == if pat[1..] <= t then Some(|r| - 1)
                                else if Find(t, pat).None? then None else Some(|r| + Find(t, pat).value)
  {
    hide Find, OneSection;
    var u := SkipSection(r, t, pat);
    FindCons(u, t, pat);
  }

  lemma SkipSection(r: string, t: string, pat: string) returns (u: string)
    requires OneSection(r) && r != "" && r[|r| - 1] == '\n'
    requires |pat| >= 2 && pat[0] == '\n' && pat[1] == '['
    ensures u != "" && u[0] == '\n' && u[1..] == t
    ensures Find(r + t, pat) == if Find(u, pat).None? then None else Some(|r| - 1 + Find(u, pat).value)
  {
    hide Occurs, Find, OneSection;
    NotInSection(r, t, pat);
    u := LastOfSection(r, t);
    FindSkip(r + t, pat, |r| - 1, u);
  }

  lemma NotInSection(r: string, t: string, pat: string)
    requires OneSection(r) && r != "" && |pat| >= 2 && pat[0] == '\n' && pat[1] == '['
    ensures forall j: nat | j < |r| - 1 :: !Occurs(r + t, pat, j)
  {
    hide Occurs;
    forall j: nat | j < |r| - 1 ensures !Occurs(r + t, pat, j) {
      assert !Opens(r, j);
      NotHere(r + t, pat, j);
    }
  }

  lemma LastOfSection(r: string, t: string) returns (u: string)
    requires r != "" && r[|r| - 1] == '\n'
    ensures u == (r + t)[|r| - 1..] && u != "" && u[0] == '\n' && u[1..] == t
  {
    u := (r + t)[|r| - 1..];
  }

  lemma FindCons(u: string, t: string, pat: string)
    requires pat != "" && u != "" && u[0] == pat[0] && u[1..] == t
    ensures Find(u, pat) == if pat[1..] <= t then Some(0)
                            else if Find(t, pat).None? then None else Some(1 + Find(t, pat).value)
  {
    assert u == [u[0]] + t && pat == [pat[0]] + pat[1..];
    assert pat <= u <==> pat[1..] <= t;
  }

  /** A header line is that of `name` only if it is spelled the same. */
  lemma HeaderDecides(p: Path, name: string, t: string)
    requires Plain(p) && PlainName(name)
    ensures Header(name) <= Render(p) + t <==> p.name == name
  {
    var s := Render(p) + t;
    assert s == Header(p.name) + (Lines(p.settings) + "\n" + t);
    if |p.name| < |name| {
      assert s[|p.name| + 1] == ']' && Header(name)[|p.name| + 1] == name[|p.name|];
      assert name[|p.name|] in name;
    } else if |name| < |p.name| {
      assert Header(name)[|name| + 1] == ']' && s[|name| + 1] == p.name[|name|];
      assert p.name[|name|] in p.name;
    } else if Header(name) <= s {
      assert forall k | 0 <= k < |name| :: name[k] == Header(name)[k + 1] == s[k + 1];
    }
  }

  lemma LocateSkips(p: Path, name: string, t: string)
    requires Plain(p) && PlainName(name)
    ensures Locate(Render(p) + t, name) == if p.name == name then Some(0)
                                           else if Locate(t, name).None? then None
                                           else Some(|Render(p)| + Locate(t, name).value)
  {
    hide Find, Render;
    HeaderDecides(p, name, t);
    RenderShape(p);
    FindAcross(Render(p), t, "\n" + Header(name));
    assert ("\n" + Header(name))[1..] == Header(name);
  }

  lemma SectionEnds(p: Path, paths: seq<Path>)
    requires Plain(p)
    ensures var s := Render(p) + Text(paths);
            SectionLength(s) == if Text(paths) == "" then |s| else |Render(p)| - 1
  {
    hide Find, Render;
    TextStart(paths);
    RenderShape(p);
    FindAcross(Render(p), Text(paths), "\n[");
    assert "\n["[1..] == "[";
    if Text(paths) == "" {
      FindIsFirst("", "\n[");
    }
  }

  lemma RemovePathSkips(p: Path, name: string, t: string)
    requires Plain(p) && PlainName(name)
    ensures RemovePath(Render(p) + t, name) ==
            if p.name == name then CutPath(Render(p) + t) else Render(p) + RemovePath(t, name)
  {
    hide Find, Render, CutPath, Locate;
    LocateSkips(p, name, t);
    var r, s := Render(p), Render(p) + t;
    if p.name == name {
      assert s[0..] == s && s[..0] == "";
    } else if Locate(t, name).Some? {
      var i := Locate(t, name).value;
      assert s[|r| + i..] == t[i..] && s[..|r| + i] == r + t[..i];
    }
  }

  /** Removing a login path from the text removes it from the list. */
  lemma {:induction false} RemovePathWorks(paths: seq<Path>, name: string)
    requires AllPlain(paths) && PlainName(name)
    ensures RemovePath(Text(paths), name) == Text(Without(paths, name))
  {
    hide Find, Render, RemovePath;
    if paths == [] {
      NothingThere(name, User);
    } else {
      var p, t := paths[0], Text(paths[1..]);
      RemovePathSkips(p, name, t);
      if p.name == name {
        SectionEnds(p, paths[1..]);
        RenderShape(p);
        assert (Render(p) + t)[|Render(p)|..] == t;
      } else {
        RemovePathWorks(paths[1..], name);
      }
    }
  }

  // ----- options -----

  /** No option name starts another one's line. */
  lemma KeyDecides(s: Setting, key: Key, rest: string)
    ensures "\n" + KeyName(key) <= Line(s) + rest <==> s.key == key
  {
    var line := Line(s) + rest;
    if s.key != key {
      assert line[1] == KeyName(s.key)[0] && ("\n" + KeyName(key))[1] == KeyName(key)[0];
      assert line[2] == KeyName(s.key)[1] && ("\n" + KeyName(key))[2] == KeyName(key)[1];
    } else {
      assert line == "\n" + KeyName(key) + (" = " + s.value + rest);
    }
  }

  /** A pattern that starts a line, searched for in text whose first line it does not start. */
  lemma FindPastLine(line: string, t: string, pat: string)
    requires pat != "" && pat[0] == '\n' && line != "" && forall k | 0 < k < |line| :: line[k] != '\n'
    requires !(pat <= line + t)
    ensures Find(line + t, pat) == if Find(t, pat).None? then None else Some(|line| + Find(t, pat).value)
  {
    hide Find, Occurs;
    NotInLine(line, t, pat);
    FindAfter(line, t, pat);
  }

  lemma NotInLine(line: string, t: string, pat: string)
    requires pat != "" && pat[0] == '\n' && line != "" && forall k | 0 < k < |line| :: line[k] != '\n'
    requires !(pat <= line + t)
    ensures forall j: nat | j < |line| :: !Occurs(line + t, pat, j)
  {
    hide Occurs;
    OccursFirst(line + t, pat);
    forall j: nat | 0 < j < |line| ensures !Occurs(line + t, pat, j) {
      NotHere(line + t, pat, j);
    }
  }

  lemma FindAfter(a: string, b: string, pat: string)
    requires forall j: nat | j < |a| :: !Occurs(a + b, pat, j)
    ensures Find(a + b, pat) == if Find(b, pat).None? then None else Some(|a| + Find(b, pat).value)
  {
    hide Find, Occurs;
    assert (a + b)[|a|..] == b;
    FindSkip(a + b, pat, |a|, b);
  }

  lemma LineIsOneLine(s: Setting)
    requires '\n' !in s.value
    ensures |Line(s)| > 2 && Line(s)[1] != '[' && Line(s)[0] == '\n'
            && forall k | 0 < k < |Line(s)| :: Line(s)[k] != '\n'
  {
    var line := Line(s);
    assert forall k | 0 < k < |line| :: line[k] in KeyName(s.key) || line[k] in " = " || line[k] in s.value;
  }

  lemma NextLine(s: Setting, t: string)
    requires '\n' !in s.value && t != "" && t[0] == '\n'
    ensures LineEnd(Line(s) + t, 0) == |Line(s)|
  {
    LineIsOneLine(s);
    var line := Line(s);
    var rest := (line + t)[1..];
    assert rest == line[1..] + t;
    forall j: nat | j < |line| - 1 ensures !Occurs(rest, "\n", j) {
      NotHere(rest, "\n", j);
    }
    assert rest[|line| - 1..] == t && "\n" <= t;
    FindSkip(rest, "\n", |line| - 1, t);
  }

  /** The lines of a login path, its settings and what follows: the search finds the line of `key` if
      there is one, and cutting that line drops the setting; it finds nothing there otherwise. */
  lemma {:induction false} CutLine(settings: seq<Setting>, t: string, key: Key)
    requires forall i | 0 <= i < |settings| :: '\n' !in settings[i].value
    requires t != "" && t[0] == '\n' && (|t| == 1 || t[1] == '[')
    ensures var s, pat := Lines(settings) + t, "\n" + KeyName(key);
            var k := Find(s, pat);
            if HasKey(settings, key)
            then && k.Some? && k.value < |Lines(settings)| - 1
                 && s[..k.value] + s[LineEnd(s, k.value)..] == Lines(DropSetting(settings, key)) + t
            else DropSetting(settings, key) == settings && (k.None? || k.value > |Lines(settings)|)
  {
    hide Find, LineEnd, KeyName, Line;
    var s, pat := Lines(settings) + t, "\n" + KeyName(key);
    if settings == [] {
      assert s == t;
      NoKeyHere(t, key);
    } else {
      var line, rest := Line(settings[0]), Lines(settings[1..]) + t;
      assert s == line + rest;
      LinesStart(settings[1..], t);
      LineIsOneLine(settings[0]);
      if settings[0].key == key {
        CutFirst(settings[0], rest);
      } else {
        CutLine(settings[1..], t, key);
        KeyDecides(settings[0], key, rest);
        CutLater(line, rest, pat);
        if HasKey(settings[1..], key) {
          var after := Lines(DropSetting(settings[1..], key));
          assert line + (after + t) == line + after + t;
          assert ([settings[0]] + DropSetting(settings[1..], key))[1..] == DropSetting(settings[1..], key);
        }
      }
    }
  }

  lemma LinesStart(settings: seq<Setting>, t: string)
    requires t != "" && t[0] == '\n'
    ensures (Lines(settings) + t)[0] == '\n'
  {
  }

  lemma NoKeyHere(t: string, key: Key)
    requires t != "" && (|t| == 1 || t[1] == '[')
    ensures var k := Find(t, "\n" + KeyName(key)); k.None? || k.value > 0
  {
    FindIsFirst(t, "\n" + KeyName(key));
    assert ("\n" + KeyName(key))[1] != '[';
  }

  /** The line cut is the first one. */
  lemma CutFirst(s: Setting, rest: string)
    requires '\n' !in s.value && rest != "" && rest[0] == '\n'
    ensures var text := Line(s) + rest;
            Find(text, "\n" + KeyName(s.key)) == Some(0) && text[..0] + text[LineEnd(text, 0)..] == rest
  {
    KeyDecides(s, s.key, rest);
    NextLine(s, rest);
  }

  /** The text without the line found, where a line before it stays. */
  lemma CutLater(line: string, rest: string, pat: string)
    requires pat != "" && pat[0] == '\n' && line != "" && forall k | 0 < k < |line| :: line[k] != '\n'
    requires !(pat <= line + rest)
    ensures var text := line + rest;
            if Find(rest, pat).None? then Find(text, pat).None?
            else var k := Find(rest, pat).value;
                 Find(text, pat) == Some(|line| + k)
                 && text[..|line| + k] + text[LineEnd(text, |line| + k)..]
                 == line + (rest[..k] + rest[LineEnd(rest, k)..])
  {
    hide Find, LineEnd;
    FindPastLine(line, rest, pat);
    if Find(rest, pat).Some? {
      var k := Find(rest, pat).value;
      LineEndSkips(line, rest, k);
      var text, e := line + rest, LineEnd(rest, k);
      assert text[|line| + e..] == rest[e..] && text[..|line| + k] == line + rest[..k];
      assert line + rest[..k] + rest[e..] == line + (rest[..k] + rest[e..]);
    }
  }

  lemma LineEndSkips(line: string, t: string, k: nat)
    requires k < |t|
    ensures LineEnd(line + t, |line| + k) == |line| + LineEnd(t, k)
  {
    assert (line + t)[|line| + k + 1..] == t[k + 1..];
  }

  lemma HeaderIsOneLine(name: string)
    requires '\n' !in name
    ensures Header(name) != "" && Header(name)[0] == '['
    ensures forall k | 0 <= k < |Header(name)| :: Header(name)[k] != '\n'
  {
  }

  lemma CutOptionHere(p: Path, paths: seq<Path>, key: Key)
    requires Plain(p)
    ensures CutOption(Render(p) + Text(paths), key) == Render(Path(p.name, DropSetting(p.settings, key))) + Text(paths)
  {
    hide Find, LineEnd, KeyName, SectionLength, Header, Lines, Text, DropSetting;
    var t, u := Text(paths), "\n" + Text(paths);
    var head, lines, pat := Header(p.name), Lines(p.settings), "\n" + KeyName(key);
    var text := Render(p) + t;
    TextStart(paths);
    HeaderIsOneLine(p.name);
    assert text == head + (lines + u);
    SectionEnds(p, paths);
    CutLine(p.settings, u, key);
    assert text[0] != pat[0];
    CutLater(head, lines + u, pat);
    var after := Lines(DropSetting(p.settings, key));
    assert head + (after + u) == head + after + "\n" + t;
  }

  lemma RemoveOptionSkips(p: Path, name: string, t: string, key: Key)
    requires Plain(p) && PlainName(name)
    ensures RemoveOption(Render(p) + t, name, key) ==
            if p.name == name then CutOption(Render(p) + t, key) else Render(p) + RemoveOption(t, name, key)
  {
    hide Find, Render, CutOption, Locate;
    LocateSkips(p, name, t);
    var r, s := Render(p), Render(p) + t;
    if p.name == name {
      assert s[0..] == s && s[..0] == "";
    } else if Locate(t, name).Some? {
      var i := Locate(t, name).value;
      assert s[|r| + i..] == t[i..] && s[..|r| + i] == r + t[..i];
    }
  }

  /** Removing an option from the text removes it from its login path, and leaves all else. */
  lemma {:induction false} RemoveOptionWorks(paths: seq<Path>, name: string, key: Key)
    requires AllPlain(paths) && PlainName(name)
    ensures RemoveOption(Text(paths), name, key) == Text(Drop(paths, name, key))
  {
    hide Find, Render, RemoveOption;
    if paths == [] {
      NothingThere(name, key);
    } else {
      var p, t := paths[0], Text(paths[1..]);
      RemoveOptionSkips(p, name, t, key);
      if p.name == name {
        CutOptionHere(p, paths[1..], key);
        assert ([Path(name, DropSetting(p.settings, key))] + paths[1..])[1..] == paths[1..];
      } else {
        RemoveOptionWorks(paths[1..], name, key);
      }
    }
  }

  lemma NothingThere(name: string, key: Key)
    ensures RemoveOption("", name, key) == "" && RemovePath("", name) == ""
  {
    FindIsFirst("", "\n" + Header(name));
  }
}
