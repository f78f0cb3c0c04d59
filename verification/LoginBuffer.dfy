/** The buffer that mysql_config_editor edits in place (client/mysql_config_editor.cc): a NUL-terminated
    string in an array, cut by moving what follows down byte by byte. */
module LoginBuffer {
  import opened Common
  import opened LoginText

  class Buffer {
    var str: array<char>
    var length: nat

    ghost predicate Valid()
      reads this, str
    {
      length < str.Length && str[length] == NUL && NUL !in str[..length]
    }

    function Contents(): string
      requires length <= str.Length
      reads this, str
    {
      str[..length]
    }

    constructor (text: string)
      requires NUL !in text
      ensures Valid() && Contents() == text && fresh(str)
    {
      str := new char[|text| + 1](i requires 0 <= i => if i < |text| then text[i] else NUL);
      length := |text|;
    }

    /** `dynstr_append`: into a larger array when the old one is full. */
    method Append(s: string)
      requires Valid() && NUL !in s
      modifies this, str
      ensures Valid() && Contents() == old(Contents()) + s && (str == old(str) || fresh(str))
    {
      var all := str[..length] + s;
      if length + |s| >= str.Length {
        str := new char[2 * |all| + 1](_ => NUL);
      }
      for i := 0 to |all|
        invariant (str == old(str) || fresh(str)) && |all| < str.Length && str[..i] == all[..i]
      {
        str[i] := all[i];
      }
      str[|all|] := NUL;
      length := |all|;
    }

    /** Move what starts at `end` down to `start`. */
    method MoveDown(start: nat, end: nat)
      requires Valid() && start <= end <= length
      modifies str, this`length
      ensures Valid() && Contents() == old(Contents()[..start] + Contents()[end..])
    {
      ghost var was := Contents();
      var to, from, toMove := start, end, length - end;
      while toMove > 0
        invariant length == |was| < str.Length && end <= from <= length && to == start + (from - end) <= from
        invariant toMove == length - from
        invariant str[..to] == was[..start] + was[end..from] && str[from..length] == was[from..]
      {
        assert str[from] == str[from..length][0] == was[from];
        ghost var moved := str[..to];
        str[to] := str[from];
        assert str[..to + 1] == moved + [was[from]];
        to, from, toMove := to + 1, from + 1, toMove - 1;
      }
      str[to] := NUL;
      length := length - (end - start);
      assert Contents() == was[..start] + was[end..];
      StaysNulFree(was, start, end);
    }

    /** `remove_ob_login_path`. */
    method RemoveLoginPath(name: string)
      requires Valid()
      modifies str, this`length
      ensures Valid() && Contents() == RemovePath(old(Contents()), name)
    {
      hide Find, Locate;
      ghost var was := Contents();
      var found := Locate(Contents(), name);
      if found.None? {
        return;
      }
      var start := found.value;
      var end := Find(Contents()[start..], "\n[");
      if end.Some? {
        MoveDown(start, start + end.value + 1);
        assert was[start..][end.value + 1..] == was[start + end.value + 1..];
      } else {
        str[start] := NUL;
        length := start;
        StaysNulFree(was, start, |was|);
        assert Contents() == was[..start] + was[|was|..];
      }
    }

    /** The search of `ob_remove_option`, line by line over the `len` bytes of a section. */
    method FindOption(section: nat, len: nat, pat: string, ghost tail: string) returns (r: Option<nat>)
      requires Valid() && section + len <= length && pat != "" && pat[0] == '\n' && tail == Contents()[section..]
      ensures r.None? ==> forall j: nat | j < len - 1 :: !Occurs(tail, pat, j)
      ensures r.Some? ==> section <= r.value && r.value + 1 < section + len
      ensures r.Some? ==> Occurs(tail, pat, r.value - section)
      ensures r.Some? ==> forall j: nat | j < r.value - section :: !Occurs(tail, pat, j)
    {
      hide Occurs;
      var start, searchLen := section, len;
      while searchLen > 1
        invariant searchLen > 1 ==> section <= start && start + searchLen == section + len
        invariant searchLen > 1 ==> forall j: nat | j < start - section :: !Occurs(tail, pat, j)
        invariant searchLen <= 1 ==> forall j: nat | j < len - 1 :: !Occurs(tail, pat, j)
      {
        assert tail[start - section..] == Contents()[start..];
        OccursHere(tail, pat, start - section);
        if pat <= str[start..length] {
          return Some(start);
        }
        searchLen := searchLen - 1;
        while searchLen > 1
          invariant searchLen >= 1 && section <= start && start + searchLen + 1 == section + len
          invariant forall j: nat | j <= start - section :: !Occurs(tail, pat, j)
        {
          start := start + 1;
          if str[start] == '\n' {
            break;
          }
          assert tail[start - section] == str[start];
          NotHere(tail, pat, start - section);
          searchLen := searchLen - 1;
        }
      }
      return None;
    }

    /** `ob_remove_option`, on text whose last line is terminated. */
    method RemoveOptionLine(name: string, key: Key)
      requires Valid() && (Contents() == "" || Contents()[length - 1] == '\n')
      modifies str, this`length
      ensures Valid() && Contents() == RemoveOption(old(Contents()), name, key)
    {
      hide Find, Locate, KeyName, LineEnd, CutOption;
      ghost var was := Contents();
      var found := Locate(Contents(), name);
      if found.None? {
        return;
      }
      var start, pat := found.value, "\n" + KeyName(key);
      ghost var tail := was[start..];
      var next := Find(Contents()[start..], "\n[");
      var searchLen := if next.Some? then next.value else length - start;
      var line := FindOption(start, searchLen, pat, tail);
      if line.Some? {
        var end := NextLineStart(line.value);
        OptionAt(was, name, key, line.value - start, end - start);
        MoveDown(line.value, end);
      } else {
        NoOption(was, name, key, tail, pat);
      }
    }

    /** The end of the line that starts, with its newline, at `at`. */
    method NextLineStart(at: nat) returns (end: nat)
      requires Valid() && at + 1 < length && Contents()[length - 1] == '\n'
      ensures at < end < length && str[end] == '\n' && forall j | at < j < end :: str[j] != '\n'
    {
      end := at + 1;
      assert str[length - 1] == Contents()[length - 1];
      while str[end] != '\n'
        invariant at < end < length && forall j | at < j < end :: str[j] != '\n'
        decreases length - end
      {
        end := end + 1;
      }
    }
  }

  lemma StaysNulFree(s: string, start: nat, end: nat)
    requires NUL !in s && start <= end <= |s|
    ensures NUL !in s[..start] + s[end..]
  {
  }

  lemma OccursHere(s: string, pat: string, k: nat)
    requires k <= |s|
    ensures pat <= s[k..] <==> Occurs(s, pat, k)
  {
    if Occurs(s, pat, k) {
      forall i | 0 <= i < |pat| ensures s[k..][i] == pat[i] {
        assert s[k + i] == pat[i];
      }
    }
  }

  /** What removing an option leaves, by where its line is found and ends. */
  lemma OptionAt(text: string, name: string, key: Key, k: nat, end: nat)
    requires Locate(text, name).Some?
    requires var tail := text[Locate(text, name).value..];
             && k < end < |tail| && tail[end] == '\n' && (forall j | k < j < end :: tail[j] != '\n')
             && Occurs(tail, "\n" + KeyName(key), k) && k + 1 < SectionLength(tail)
             && forall j: nat | j < k :: !Occurs(tail, "\n" + KeyName(key), j)
    ensures var start := Locate(text, name).value;
            RemoveOption(text, name, key) == text[..start + k] + text[start + end..]
  {
    hide Find, Locate, Occurs, KeyName, LineEnd;
    var start := Locate(text, name).value;
    var tail := text[start..];
    FindIsFirst(tail, "\n" + KeyName(key));
    EndOfLine(tail, k, end);
    assert tail[end..] == text[start + end..];
    assert text[..start] + (tail[..k] + tail[end..]) == text[..start + k] + tail[end..];
  }

  lemma NoOption(text: string, name: string, key: Key, tail: string, pat: string)
    requires Locate(text, name).Some? && tail == text[Locate(text, name).value..] && pat == "\n" + KeyName(key)
    requires forall j: nat | j < SectionLength(tail) - 1 :: !Occurs(tail, pat, j)
    ensures RemoveOption(text, name, key) == text
  {
    hide Find, Locate, Occurs, KeyName, LineEnd;
    FindIsFirst(tail, pat);
    assert text[..Locate(text, name).value] + tail == text;
  }

  lemma EndOfLine(s: string, k: nat, end: nat)
    requires k < end < |s| && s[end] == '\n' && forall j | k < j < end :: s[j] != '\n'
    ensures LineEnd(s, k) == end
  {
    var rest := s[k + 1..];
    FindIsFirst(rest, "\n");
    assert Occurs(rest, "\n", end - k - 1);
    forall j: nat | j < end - k - 1 ensures !Occurs(rest, "\n", j) {
      NotHere(rest, "\n", j);
    }
  }
}
