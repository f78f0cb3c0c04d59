/** The set and remove commands of mysql_config_editor on the text of the login file, and what any
    sequence of them means for the login paths it stores. */
module LoginCommands {
  import opened Common
  import opened LoginText

  /** The options of a set command, those not given left out. */
  datatype Options = Options(user: Option<string>, password: Option<string>, host: Option<string>,
                             socket: Option<string>, port: Option<string>)
  {
    function Get(k: Key): Option<string> {
      match k
      case User => user
      case Password => password
      case Host => host
      case Socket => socket
      case Port => port
    }
  }

  datatype Command =
    | Set(name: string, options: Options)
    | Remove(name: string, keys: set<Key>)

  const KEYS: seq<Key> := [User, Password, Host, Socket, Port]

  /** The lines a set command writes, in their fixed order. */
  function Given(o: Options, keys: seq<Key>): seq<Setting> {
    if keys == [] then []
    else (if o.Get(keys[0]).None? then [] else [Setting(keys[0], o.Get(keys[0]).value)]) + Given(o, keys[1..])
  }

  /** `ob_ob_remove_options`, option by option. */
  ghost function RemoveOptions(text: string, name: string, remove: set<Key>, keys: seq<Key>): string
    decreases |keys|
  {
    if keys == [] then text
    else RemoveOptions(if keys[0] in remove then RemoveOption(text, name, keys[0]) else text, name, remove, keys[1..])
  }

  /** `set_command` and `remove_command` on the decrypted text. */
  ghost function Execute(text: string, c: Command): string {
    match c
    case Set(name, options) => RemovePath(text, name) + Render(Path(name, Given(options, KEYS)))
    case Remove(name, keys) =>
      if keys == {} then RemovePath(text, name) else RemoveOptions(text, name, keys, KEYS)
  }

  ghost function ExecuteAll(text: string, cs: seq<Command>): string {
    if cs == [] then text else Execute(ExecuteAll(text, cs[..|cs| - 1]), cs[|cs| - 1])
  }

  // ----- what is stored -----

  type Store = map<string, map<Key, string>>

  ghost function Chosen(o: Options, keys: seq<Key>): map<Key, string> {
    map k | k in keys && o.Get(k).Some? :: o.Get(k).value
  }

  /** What a command does to the stored login paths. */
  ghost function Change(s: Store, c: Command): Store {
    match c
    case Set(name, options) => s[name := Chosen(options, KEYS)]
    case Remove(name, keys) =>
      if name !in s then s else if keys == {} then s - {name} else s[name := s[name] - keys]
  }

  ghost function ChangeAll(s: Store, cs: seq<Command>): Store {
    if cs == [] then s else Change(ChangeAll(s, cs[..|cs| - 1]), cs[|cs| - 1])
  }

  ghost function SettingsMap(settings: seq<Setting>): map<Key, string> {
    if settings == [] then map[] else SettingsMap(settings[1..])[settings[0].key := settings[0].value]
  }

  ghost function Meaning(paths: seq<Path>): Store {
    if paths == [] then map[] else Meaning(paths[1..])[paths[0].name := SettingsMap(paths[0].settings)]
  }

  ghost predicate DistinctKeys(settings: seq<Setting>) {
    settings == [] || (settings[0].key !in SettingsMap(settings[1..]) && DistinctKeys(settings[1..]))
  }

  /** Login paths as the commands leave them: each name once, and each option of it once. */
  ghost predicate Proper(paths: seq<Path>) {
    paths == [] || (&& Plain(paths[0]) && DistinctKeys(paths[0].settings)
                    && paths[0].name !in Meaning(paths[1..]) && Proper(paths[1..]))
  }

  ghost predicate PlainCommand(c: Command) {
    PlainName(c.name) && (c.Set? ==> forall k :: c.options.Get(k).Some? ==> '\n' !in c.options.Get(k).value)
  }

  // ----- lists of login paths -----

  lemma {:induction false} ProperPlain(paths: seq<Path>)
    requires Proper(paths)
    ensures AllPlain(paths)
  {
    if paths != [] {
      ProperPlain(paths[1..]);
      forall i | 0 <= i < |paths| ensures Plain(paths[i]) {
        assert i > 0 ==> paths[i] == paths[1..][i - 1];
      }
    }
  }

  lemma {:induction false} DropMeaning(settings: seq<Setting>, key: Key)
    requires DistinctKeys(settings) && forall i | 0 <= i < |settings| :: '\n' !in settings[i].value
    ensures var d := DropSetting(settings, key);
            && DistinctKeys(d) && SettingsMap(d) == SettingsMap(settings) - {key}
            && forall i | 0 <= i < |d| :: '\n' !in d[i].value
  {
    if settings != [] && settings[0].key != key {
      DropMeaning(settings[1..], key);
      assert ([settings[0]] + DropSetting(settings[1..], key))[1..] == DropSetting(settings[1..], key);
    }
  }

  /** Without a login path, as a list and as a store. */
  lemma {:induction false} WithoutMeaning(paths: seq<Path>, name: string)
    requires Proper(paths)
    ensures Proper(Without(paths, name)) && Meaning(Without(paths, name)) == Meaning(paths) - {name}
  {
    hide Plain, DistinctKeys, SettingsMap;
    if paths != [] && paths[0].name != name {
      WithoutMeaning(paths[1..], name);
      assert ([paths[0]] + Without(paths[1..], name))[1..] == Without(paths[1..], name);
    }
  }

  lemma {:induction false} AppendMeaning(paths: seq<Path>, p: Path)
    requires Proper(paths) && Plain(p) && DistinctKeys(p.settings) && p.name !in Meaning(paths)
    ensures Proper(paths + [p]) && Meaning(paths + [p]) == Meaning(paths)[p.name := SettingsMap(p.settings)]
  {
    hide Plain, DistinctKeys, SettingsMap;
    if paths == [] {
      assert (paths + [p])[1..] == [];
    } else {
      AppendMeaning(paths[1..], p);
      assert (paths + [p])[1..] == paths[1..] + [p];
    }
  }

  lemma {:induction false} AppendText(paths: seq<Path>, p: Path)
    ensures Text(paths + [p]) == Text(paths) + Render(p)
  {
    if paths == [] {
      assert (paths + [p])[1..] == [];
      assert Render(p) + "" == "" + Render(p);
    } else {
      AppendText(paths[1..], p);
      assert (paths + [p])[1..] == paths[1..] + [p];
      assert Render(paths[0]) + (Text(paths[1..]) + Render(p)) == Render(paths[0]) + Text(paths[1..]) + Render(p);
    }
  }

  lemma PathCons(p: Path, rest: seq<Path>)
    ensures Meaning([p] + rest) == Meaning(rest)[p.name := SettingsMap(p.settings)]
    ensures Proper([p] + rest) <==> Plain(p) && DistinctKeys(p.settings) && p.name !in Meaning(rest) && Proper(rest)
  {
    assert ([p] + rest)[1..] == rest;
  }

  ghost function DropKey(s: Store, name: string, key: Key): Store {
    if name in s then s[name := s[name] - {key}] else s
  }

  lemma DropKeyCons(s: Store, at: string, v: map<Key, string>, name: string, key: Key)
    ensures DropKey(s[at := v], name, key) == if at == name then s[at := v - {key}] else DropKey(s, name, key)[at := v]
    ensures at in DropKey(s, name, key) <==> at in s
  {
  }

  lemma {:induction false} DropPathMeaning(paths: seq<Path>, name: string, key: Key)
    requires Proper(paths)
    ensures Proper(Drop(paths, name, key)) && Meaning(Drop(paths, name, key)) == DropKey(Meaning(paths), name, key)
  {
    if paths != [] {
      hide DistinctKeys, SettingsMap, Meaning, Proper, DropKey;
      var p, rest := paths[0], paths[1..];
      assert paths == [p] + rest;
      PathCons(p, rest);
      DropKeyCons(Meaning(rest), p.name, SettingsMap(p.settings), name, key);
      if p.name == name {
        DropMeaning(p.settings, key);
        PathCons(Path(name, DropSetting(p.settings, key)), rest);
      } else {
        DropPathMeaning(rest, name, key);
        PathCons(p, Drop(rest, name, key));
      }
    }
  }

  // ----- the lists that commands make -----

  /** The settings whose keys are not removed, in their order. */
  ghost function Kept(settings: seq<Setting>, remove: set<Key>): seq<Setting> {
    if settings == [] then []
    else (if settings[0].key in remove then [] else [settings[0]]) + Kept(settings[1..], remove)
  }

  /** The login paths with some settings of one of them gone, everything else in its place. */
  ghost function Keeping(paths: seq<Path>, name: string, remove: set<Key>): seq<Path> {
    if paths == [] then []
    else if paths[0].name == name then [Path(name, Kept(paths[0].settings, remove))] + paths[1..]
    else [paths[0]] + Keeping(paths[1..], name, remove)
  }

  /** What a command does to the list: a login path that is set goes to the end. */
  ghost function Listed(paths: seq<Path>, c: Command): seq<Path> {
    match c
    case Set(name, options) => Without(paths, name) + [Path(name, Given(options, KEYS))]
    case Remove(name, keys) => if keys == {} then Without(paths, name) else Keeping(paths, name, keys)
  }

  ghost function ListedAll(cs: seq<Command>): seq<Path> {
    if cs == [] then [] else Listed(ListedAll(cs[..|cs| - 1]), cs[|cs| - 1])
  }

  lemma {:induction false} KeptAll(settings: seq<Setting>)
    ensures Kept(settings, {}) == settings
  {
    if settings != [] {
      KeptAll(settings[1..]);
    }
  }

  lemma {:induction false} KeptAbsent(settings: seq<Setting>, key: Key, remove: set<Key>)
    requires key !in SettingsMap(settings)
    ensures Kept(settings, remove + {key}) == Kept(settings, remove)
  {
    if settings != [] {
      KeptAbsent(settings[1..], key, remove);
    }
  }

  lemma {:induction false} KeptDrop(settings: seq<Setting>, key: Key, remove: set<Key>)
    requires DistinctKeys(settings)
    ensures Kept(DropSetting(settings, key), remove) == Kept(settings, remove + {key})
  {
    if settings != [] {
      var x, rest := settings[0], settings[1..];
      if x.key == key {
        KeptAbsent(rest, key, remove);
        assert [] + Kept(rest, remove) == Kept(rest, remove);
      } else {
        KeptDrop(rest, key, remove);
        assert ([x] + DropSetting(rest, key))[1..] == DropSetting(rest, key);
      }
    }
  }

  lemma {:induction false} KeepingAll(paths: seq<Path>, name: string)
    ensures Keeping(paths, name, {}) == paths
  {
    if paths != [] {
      KeepingAll(paths[1..], name);
      KeptAll(paths[0].settings);
      assert paths == [paths[0]] + paths[1..];
    }
  }

  lemma {:induction false} KeepingDrop(paths: seq<Path>, name: string, key: Key, remove: set<Key>)
    requires Proper(paths)
    ensures Keeping(Drop(paths, name, key), name, remove) == Keeping(paths, name, remove + {key})
  {
    hide Kept, DropSetting, DistinctKeys;
    if paths != [] {
      var p, rest := paths[0], paths[1..];
      if p.name == name {
        KeptDrop(p.settings, key, remove);
        assert ([Path(name, DropSetting(p.settings, key))] + rest)[1..] == rest;
      } else {
        KeepingDrop(rest, name, key, remove);
        assert ([p] + Drop(rest, name, key))[1..] == Drop(rest, name, key);
      }
    }
  }

  // ----- commands -----

  ghost function KeySet(keys: seq<Key>): set<Key> {
    set k | k in keys
  }

  lemma {:induction false} RemoveOptionsWork(paths: seq<Path>, name: string, remove: set<Key>, keys: seq<Key>)
    returns (after: seq<Path>)
    requires Proper(paths) && PlainName(name)
    ensures Proper(after) && RemoveOptions(Text(paths), name, remove, keys) == Text(after)
    ensures after == Keeping(paths, name, remove * KeySet(keys))
    ensures var s := Meaning(paths);
            Meaning(after) == if name in s then s[name := s[name] - (remove * KeySet(keys))] else s
    decreases |keys|
  {
    hide Proper, Meaning, RemoveOption, Text, Drop, Keeping;
    if keys == [] {
      after := paths;
      KeepingAll(paths, name);
      assert remove * KeySet(keys) == {};
      DropMore(Meaning(paths), name, {}, {});
    } else {
      var next, drop := paths, remove * {keys[0]};
      if keys[0] in remove {
        ProperPlain(paths);
        RemoveOptionWorks(paths, name, keys[0]);
        DropPathMeaning(paths, name, keys[0]);
        next := Drop(paths, name, keys[0]);
        assert drop == {keys[0]};
      } else {
        assert drop == {};
        DropMore(Meaning(paths), name, {}, {});
      }
      after := RemoveOptionsWork(next, name, remove, keys[1..]);
      if keys[0] in remove {
        KeepingDrop(paths, name, keys[0], remove * KeySet(keys[1..]));
        assert remove * KeySet(keys[1..]) + {keys[0]} == remove * KeySet(keys);
      } else {
        assert remove * KeySet(keys[1..]) == remove * KeySet(keys);
      }
      assert remove * KeySet(keys) == drop + remove * KeySet(keys[1..]);
      DropMore(Meaning(paths), name, drop, remove * KeySet(keys[1..]));
    }
  }

  lemma DropMore(s: Store, name: string, a: set<Key>, b: set<Key>)
    ensures name in s ==> s[name := s[name] - {}] == s
    ensures name in s ==> s[name := s[name] - a][name := s[name] - a - b] == s[name := s[name] - (a + b)]
  {
    if name in s {
      assert s[name] - {} == s[name];
      assert s[name] - a - b == s[name] - (a + b);
    }
  }

  lemma AllKeys(k: Key)
    ensures k in KEYS
  {
    match k
    case User => assert KEYS[0] == k;
    case Password => assert KEYS[1] == k;
    case Host => assert KEYS[2] == k;
    case Socket => assert KEYS[3] == k;
    case Port => assert KEYS[4] == k;
  }

  lemma OneMore(x: Setting, rest: seq<Setting>)
    ensures SettingsMap([x] + rest) == SettingsMap(rest)[x.key := x.value]
    ensures DistinctKeys([x] + rest) <==> x.key !in SettingsMap(rest) && DistinctKeys(rest)
  {
    assert ([x] + rest)[1..] == rest;
  }

  lemma ChosenCons(o: Options, key: Key, keys: seq<Key>)
    requires key !in keys
    ensures key !in Chosen(o, keys)
    ensures Chosen(o, [key] + keys) ==
            if o.Get(key).Some? then Chosen(o, keys)[key := o.Get(key).value] else Chosen(o, keys)
  {
  }

  lemma {:induction false} GivenMeaning(o: Options, keys: seq<Key>)
    requires forall i, j | 0 <= i < j < |keys| :: keys[i] != keys[j]
    requires forall k :: o.Get(k).Some? ==> '\n' !in o.Get(k).value
    ensures var g := Given(o, keys);
            && DistinctKeys(g) && (forall i | 0 <= i < |g| :: '\n' !in g[i].value)
            && SettingsMap(g) == Chosen(o, keys)
  {
    if keys != [] {
      GivenMeaning(o, keys[1..]);
      hide SettingsMap, DistinctKeys, Chosen;
      var rest := Given(o, keys[1..]);
      assert keys == [keys[0]] + keys[1..];
      ChosenCons(o, keys[0], keys[1..]);
      if o.Get(keys[0]).Some? {
        OneMore(Setting(keys[0], o.Get(keys[0]).value), rest);
      } else {
        assert [] + rest == rest;
      }
    }
  }

  lemma SetWorks(paths: seq<Path>, name: string, o: Options) returns (after: seq<Path>)
    requires Proper(paths) && PlainCommand(Set(name, o))
    ensures Proper(after) && Execute(Text(paths), Set(name, o)) == Text(after)
    ensures Meaning(after) == Change(Meaning(paths), Set(name, o)) && after == Listed(paths, Set(name, o))
  {
    hide Proper, Meaning, Render, RemovePath, Text, Without, SettingsMap, DistinctKeys, Given;
    var p := Path(name, Given(o, KEYS));
    after := Without(paths, name) + [p];
    ProperPlain(paths);
    RemovePathWorks(paths, name);
    WithoutMeaning(paths, name);
    assert PlainCommand(Set(name, o));
    GivenMeaning(o, KEYS);
    AppendMeaning(Without(paths, name), p);
    AppendText(Without(paths, name), p);
  }

  lemma RemoveWorks(paths: seq<Path>, name: string, keys: set<Key>) returns (after: seq<Path>)
    requires Proper(paths) && PlainName(name)
    ensures Proper(after) && Execute(Text(paths), Remove(name, keys)) == Text(after)
    ensures Meaning(after) == Change(Meaning(paths), Remove(name, keys)) && after == Listed(paths, Remove(name, keys))
  {
    hide Proper, Meaning, RemovePath, RemoveOptions, Text, Without, Keeping;
    if keys == {} {
      ProperPlain(paths);
      RemovePathWorks(paths, name);
      WithoutMeaning(paths, name);
      after := Without(paths, name);
      assert name !in Meaning(paths) ==> Meaning(paths) - {name} == Meaning(paths);
    } else {
      after := RemoveOptionsWork(paths, name, keys, KEYS);
      forall k | k in keys ensures k in KeySet(KEYS) {
        AllKeys(k);
      }
      assert keys * KeySet(KEYS) == keys;
    }
  }

  lemma CommandWorks(paths: seq<Path>, c: Command) returns (after: seq<Path>)
    requires Proper(paths) && PlainCommand(c)
    ensures Proper(after) && Execute(Text(paths), c) == Text(after) && Meaning(after) == Change(Meaning(paths), c)
    ensures after == Listed(paths, c)
  {
    hide Proper, Text, Execute, Meaning, Change, Listed;
    if c.Set? {
      after := SetWorks(paths, c.name, c.options);
    } else {
      after := RemoveWorks(paths, c.name, c.keys);
    }
  }

  /** Whatever commands are given, starting from an empty login file, its text is that of the list of login
      paths the commands make, each where it was last set, and what the list stores is what they say. */
  lemma {:induction false} CommandsWork(cs: seq<Command>) returns (paths: seq<Path>)
    requires forall i | 0 <= i < |cs| :: PlainCommand(cs[i])
    ensures paths == ListedAll(cs)
    ensures Proper(paths) && ExecuteAll("", cs) == Text(paths) && Meaning(paths) == ChangeAll(map[], cs)
  {
    hide Execute, Change, Proper, Meaning, Listed;
    if cs == [] {
      paths := [];
      NoPaths();
    } else {
      paths := CommandsWork(cs[..|cs| - 1]);
      paths := CommandWorks(paths, cs[|cs| - 1]);
    }
  }

  lemma NoPaths()
    ensures Proper([]) && Meaning([]) == map[] && Text([]) == ""
  {
  }
}
