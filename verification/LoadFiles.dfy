/** `Load_log_processor` of mysqlbinlog (client/mysqlbinlog.cc): the blocks of logged LOAD DATA
    statements, which arrive interleaved, are gathered into one temporary file per statement. */
module LoadFiles {
  import opened Common

  type Block = seq<byte>

  datatype Event =
    | BeginLoadQuery(id: nat, block: Block)
    | CreateFile(id: nat, path: string, block: Block)
    | AppendBlock(id: nat, block: Block)
    | ExecuteLoadQuery(id: nat)
    | ExecLoad(id: nat)

  // ----- what should be loaded -----

  /** What follows the last slash. */
  function BaseName(path: string): string {
    if path == "" || path[|path| - 1] == '/' then "" else BaseName(path[..|path| - 1]) + [path[|path| - 1]]
  }

  /** A statement whose file is being gathered: which kind of event started it, the base name it gave and
      its id, and what is to be loaded. */
  datatype Load = Load(query: bool, base: string, id: nat, data: Block)

  predicate Starts(ev: Event) {
    ev.BeginLoadQuery? || ev.CreateFile?
  }

  function StartOf(ev: Event): Load
    requires Starts(ev)
  {
    Load(ev.BeginLoadQuery?, if ev.CreateFile? then BaseName(ev.path) else "SQL_LOAD_MB", ev.id, ev.block)
  }

  predicate Executes(ev: Event, l: Option<Load>) {
    l.Some? && (if l.value.query then ev.ExecuteLoadQuery? else ev.ExecLoad?)
  }

  /** The effect of an event on the statement with its id. */
  function Next(l: Option<Load>, ev: Event): Option<Load> {
    match ev
    case BeginLoadQuery(_, _) => Some(StartOf(ev))
    case CreateFile(_, _, _) => Some(StartOf(ev))
    case AppendBlock(_, block) => if l.Some? then Some(l.value.(data := l.value.data + block)) else None
    case _ => if Executes(ev, l) then None else l
  }

  /** What the events seen so far have gathered for `id`. */
  ghost function Gathered(seen: seq<Event>, id: nat): Option<Load> {
    if seen == [] then None
    else
      var l := Gathered(seen[..|seen| - 1], id);
      var ev := seen[|seen| - 1];
      if ev.id == id then Next(l, ev) else l
  }

  /** What the statements executed so far load, in order. */
  ghost function Loaded(seen: seq<Event>): seq<Load> {
    if seen == [] then []
    else
      var init, ev := seen[..|seen| - 1], seen[|seen| - 1];
      var l := Gathered(init, ev.id);
      if Executes(ev, l) then Loaded(init) + [l.value] else Loaded(init)
  }

  ghost function Only(seen: seq<Event>, id: nat): seq<Event> {
    if seen == [] then []
    else
      var init, ev := seen[..|seen| - 1], seen[|seen| - 1];
      if ev.id == id then Only(init, id) + [ev] else Only(init, id)
  }

  /** However events with other ids are interleaved, they make no difference. */
  lemma {:induction false} InterleavingIsHarmless(seen: seq<Event>, id: nat)
    ensures Gathered(seen, id) == Gathered(Only(seen, id), id)
  {
    if seen != [] {
      var init, ev := seen[..|seen| - 1], seen[|seen| - 1];
      InterleavingIsHarmless(init, id);
      assert (Only(init, id) + [ev])[..|Only(init, id)|] == Only(init, id);
    }
  }

  ghost function AllBlocks(appends: seq<Event>): Block
    requires forall i | 0 <= i < |appends| :: appends[i].AppendBlock?
  {
    if appends == [] then []
    else AllBlocks(appends[..|appends| - 1]) + appends[|appends| - 1].block
  }

  /** The events of a statement, its first event and then appends, gather the first block and then all
      appended ones, whatever was gathered under that id before. */
  lemma {:induction false} GathersFirstAndAppended(before: seq<Event>, start: Event, appends: seq<Event>)
    requires Starts(start)
    requires forall i | 0 <= i < |appends| :: appends[i].AppendBlock? && appends[i].id == start.id
    ensures Gathered(before + [start] + appends, start.id)
            == Some(StartOf(start).(data := start.block + AllBlocks(appends)))
    decreases |appends|
  {
    hide Gathered, Loaded;
    if appends == [] {
      Snoc(before, start);
      assert before + [start] + appends == before + [start];
      assert start.block + [] == start.block;
    } else {
      var init, last := appends[..|appends| - 1], appends[|appends| - 1];
      GathersFirstAndAppended(before, start, init);
      Snoc(before + [start] + init, last);
      assert before + [start] + appends == before + [start] + init + [last];
      assert start.block + AllBlocks(init) + last.block == start.block + (AllBlocks(init) + last.block);
    }
  }

  // ----- the files -----

  /** An entry of `file_names`; `event` tells whether it holds a Create_file event. */
  datatype Slot = Slot(fname: Option<string>, event: bool)

  const EMPTY: Slot := Slot(None, false)

  function Hex(n: nat): string {
    var digit := ["0123456789abcdef"[n % 16]];
    if n < 16 then digit else Hex(n / 16) + digit
  }

  /** The name of a statement's file up to the version. */
  function Stem(dir: string, l: Load): string {
    dir + l.base + "-" + Hex(l.id)
  }

  function Version(stem: string, v: nat): string {
    stem + "-" + Hex(v)
  }

  ghost predicate Named(dir: string, l: Load, fname: string) {
    exists v: nat | v < 1000 :: fname == Version(Stem(dir, l), v)
  }

  /** The slots by file id, the files there are, our own and others, and the files of the LOAD DATA
      statements printed. */
  datatype Disk = Disk(dir: string, slots: seq<Slot>, files: map<string, Block>, own: seq<string>) {
    ghost function At(id: nat): Slot {
      if id < |slots| then slots[id] else EMPTY
    }

    ghost function Put(id: nat, slot: Slot): (d: Disk)
      ensures d.dir == dir && d.files == files && d.own == own
      ensures forall j: nat :: d.At(j) == if j == id then slot else At(j)
    {
      if id < |slots| then this.(slots := slots[id := slot])
      else this.(slots := slots + seq(id - |slots|, i => EMPTY) + [slot])
    }

    /** Each statement being gathered has a file of its own, and so has each printed one. */
    ghost predicate Apart() {
      && (forall i: nat :: At(i).fname.Some? ==> At(i).fname.value in files && At(i).fname.value !in own)
      && (forall i: nat, j: nat :: i != j && At(i).fname.Some? ==> At(i).fname != At(j).fname)
      && (forall i | 0 <= i < |own| :: own[i] in files)
      && (forall i, j | 0 <= i < j < |own| :: own[i] != own[j])
    }

    ghost predicate Holds(slot: Slot, l: Option<Load>) {
      if l.None? then slot == EMPTY
      else && slot.fname.Some? && slot.event == !l.value.query && Named(dir, l.value, slot.fname.value)
           && slot.fname.value in files && files[slot.fname.value] == l.value.data
    }

    /** The files hold what the events seen so far have gathered, and those of printed statements what
        these load. */
    ghost predicate Shows(seen: seq<Event>) {
      && Apart()
      && (forall id: nat :: Holds(At(id), Gathered(seen, id)))
      && |own| == |Loaded(seen)|
      && (forall i | 0 <= i < |own| :: files[own[i]] == Loaded(seen)[i].data && Named(dir, Loaded(seen)[i], own[i]))
    }
  }

  lemma Snoc(seen: seq<Event>, ev: Event)
    ensures forall id: nat :: Gathered(seen + [ev], id) ==
                              if id == ev.id then Next(Gathered(seen, id), ev) else Gathered(seen, id)
    ensures Loaded(seen + [ev]) ==
            if Executes(ev, Gathered(seen, ev.id)) then Loaded(seen) + [Gathered(seen, ev.id).value] else Loaded(seen)
  {
    assert (seen + [ev])[..|seen|] == seen;
  }

  lemma Started(d: Disk, ev: Event, fname: string, seen: seq<Event>)
    requires d.Shows(seen) && Starts(ev) && fname !in d.files && Named(d.dir, StartOf(ev), fname)
    ensures d.Put(ev.id, Slot(Some(fname), ev.CreateFile?)).(files := d.files[fname := ev.block]).Shows(seen + [ev])
  {
    hide Gathered, Loaded, Disk.Put, Named;
    Snoc(seen, ev);
    var slot := Slot(Some(fname), ev.CreateFile?);
    var e := d.Put(ev.id, slot).(files := d.files[fname := ev.block]);
    assert forall j: nat :: e.At(j) == d.Put(ev.id, slot).At(j);
    assert e.Apart();
    forall id: nat ensures e.Holds(e.At(id), Gathered(seen + [ev], id)) {
      assert d.Holds(d.At(id), Gathered(seen, id));
    }
  }

  lemma SameName(dir: string, l: Load, block: Block)
    ensures forall fname: string :: Named(dir, l.(data := l.data + block), fname) == Named(dir, l, fname)
  {
    assert Stem(dir, l.(data := l.data + block)) == Stem(dir, l);
  }

  lemma Appended(d: Disk, ev: Event, seen: seq<Event>)
    requires d.Shows(seen) && ev.AppendBlock? && d.At(ev.id).fname.Some?
    ensures var fname := d.At(ev.id).fname.value;
            fname in d.files && d.(files := d.files[fname := d.files[fname] + ev.block]).Shows(seen + [ev])
  {
    hide Gathered, Loaded;
    Snoc(seen, ev);
    assert d.Holds(d.At(ev.id), Gathered(seen, ev.id));
    SameName(d.dir, Gathered(seen, ev.id).value, ev.block);
    hide Named;
    var fname := d.At(ev.id).fname.value;
    var e := d.(files := d.files[fname := d.files[fname] + ev.block]);
    assert forall j: nat :: e.At(j) == d.At(j);
    assert e.Apart();
    forall id: nat ensures e.Holds(e.At(id), Gathered(seen + [ev], id)) {
      assert d.Holds(d.At(id), Gathered(seen, id));
    }
  }

  /** Which slots are grabbed by which events. */
  lemma Grabs(d: Disk, ev: Event, seen: seq<Event>)
    requires d.Shows(seen)
    ensures Executes(ev, Gathered(seen, ev.id))
            <==> d.At(ev.id).fname.Some? && if d.At(ev.id).event then ev.ExecLoad? else ev.ExecuteLoadQuery?
    ensures d.At(ev.id).event ==> d.At(ev.id).fname.Some?
  {
    hide Gathered, Loaded;
  }

  lemma Printed(d: Disk, ev: Event, seen: seq<Event>)
    requires d.Shows(seen) && Executes(ev, Gathered(seen, ev.id))
    ensures d.At(ev.id).fname.Some?
    ensures d.Put(ev.id, EMPTY).(own := d.own + [d.At(ev.id).fname.value]).Shows(seen + [ev])
  {
    hide Gathered, Loaded, Disk.Put, Named;
    Snoc(seen, ev);
    assert d.Holds(d.At(ev.id), Gathered(seen, ev.id));
    var e := d.Put(ev.id, EMPTY).(own := d.own + [d.At(ev.id).fname.value]);
    assert forall j: nat :: e.At(j) == d.Put(ev.id, EMPTY).At(j);
    assert e.Apart();
    forall id: nat ensures e.Holds(e.At(id), Gathered(seen + [ev], id)) {
      assert d.Holds(d.At(id), Gathered(seen, id));
    }
  }

  /** An append or execute event without a matching start is passed over. */
  lemma Ignored(d: Disk, ev: Event, seen: seq<Event>)
    requires d.Shows(seen) && !Starts(ev) && !Executes(ev, Gathered(seen, ev.id))
    requires ev.AppendBlock? ==> d.At(ev.id).fname.None?
    ensures d.Shows(seen + [ev])
  {
    hide Gathered, Loaded;
    Snoc(seen, ev);
  }

  // ----- the names printed -----

  /** Backslashes turned into slashes. */
  function Forward(fname: string): (r: string)
    ensures |r| == |fname| && '\\' !in r
  {
    seq(|fname|, i requires 0 <= i < |fname| => if fname[i] == '\\' then '/' else fname[i])
  }

  /** `convert_path_to_forward_slashes`. */
  method ConvertPath(fname: string) returns (r: string)
    ensures r == Forward(fname)
  {
    r := "";
    for i := 0 to |fname|
      invariant r == Forward(fname)[..i]
    {
      r := r + [if fname[i] == '\\' then '/' else fname[i]];
    }
  }

  lemma ForwardSame(s: string)
    ensures Forward(s) == s <==> '\\' !in s
  {
    if '\\' !in s {
      assert forall i | 0 <= i < |s| :: s[i] in s;
    }
  }

  lemma {:induction false} HexPlain(n: nat)
    ensures '\\' !in Hex(n)
  {
    if n >= 16 {
      HexPlain(n / 16);
    }
  }

  /** A statement names its own file exactly if there is no backslash in the directory and in the base name. */
  lemma NamesItsFile(dir: string, l: Load, fname: string)
    requires Named(dir, l, fname)
    ensures Forward(fname) == fname <==> '\\' !in dir && '\\' !in l.base
  {
    var v: nat :| v < 1000 && fname == Version(Stem(dir, l), v);
    HexPlain(v);
    HexPlain(l.id);
    ForwardSame(fname);
    assert fname == dir + (l.base + "-" + Hex(l.id) + "-" + Hex(v));
    assert fname == dir + l.base + ("-" + Hex(l.id) + "-" + Hex(v));
  }

  /** A name that puts the file into the directory itself. */
  predicate DirectlyIn(dir: string, fname: string) {
    dir <= fname && '/' !in fname[|dir|..]
  }

  lemma {:induction false} BasePlain(path: string)
    ensures '/' !in BaseName(path)
  {
    if path != "" {
      BasePlain(path[..|path| - 1]);
    }
  }

  lemma {:induction false} HexSlashless(n: nat)
    ensures '/' !in Hex(n)
  {
    if n >= 16 {
      HexSlashless(n / 16);
    }
  }

  lemma BaseSlashless(ev: Event)
    requires Starts(ev)
    ensures '/' !in StartOf(ev).base
  {
    if ev.CreateFile? {
      BasePlain(ev.path);
    }
  }

  lemma SlashlessName(dir: string, base: string, id: string, v: string)
    requires '/' !in base && '/' !in id && '/' !in v
    ensures DirectlyIn(dir, dir + base + "-" + id + "-" + v)
  {
    var rest := base + "-" + id + "-" + v;
    assert dir + base + "-" + id + "-" + v == dir + rest;
    assert (dir + rest)[|dir|..] == rest;
  }

  /** The files of statements are in the directory itself. */
  lemma NamedDirectly(dir: string, ev: Event, fname: string)
    requires Starts(ev) && Named(dir, StartOf(ev), fname)
    ensures DirectlyIn(dir, fname)
  {
    hide Hex, StartOf, DirectlyIn;
    var l := StartOf(ev);
    var v: nat :| v < 1000 && fname == Version(Stem(dir, l), v);
    BaseSlashless(ev);
    HexSlashless(v);
    HexSlashless(l.id);
    SlashlessName(dir, l.base, Hex(l.id), Hex(v));
  }

  /** A name with backslashes, these turned, is not: it has none left for those of the directory, or a slash
      after it. */
  lemma TurnedElsewhere(dir: string, fname: string)
    requires dir <= fname && '\\' in fname
    ensures !DirectlyIn(dir, Forward(fname))
  {
    var i :| 0 <= i < |fname| && fname[i] == '\\';
    var t := Forward(fname);
    assert t[i] == '/';
    if i < |dir| {
      assert dir[i] == '\\';
    } else {
      assert t[|dir|..][i - |dir|] == '/';
    }
  }

  // ----- the processor -----

  class Processor {
    const dir: string
    /** `file_names`, indexed by file id. */
    var slots: seq<Slot>
    var files: map<string, Block>
    /** The file names in the LOAD DATA statements printed. */
    var printed: seq<string>
    /** The files themselves. */
    ghost var own: seq<string>

    ghost function Abs(): Disk
      reads this
    {
      Disk(dir, slots, files, own)
    }

    ghost predicate Shows(seen: seq<Event>)
      reads this
    {
      Abs().Shows(seen) && |printed| == |own| && forall i | 0 <= i < |own| :: printed[i] == Forward(own[i])
    }

    constructor (dir: string, files: map<string, Block>)
      ensures Shows([]) && this.dir == dir && this.files == files && printed == []
    {
      this.dir, this.files, slots, printed, own := dir, files, [], [], [];
    }

    /** `create_unique_file`. */
    method CreateUniqueFile(stem: string) returns (fname: Option<string>)
      modifies this`files
      ensures fname.None? ==> files == old(files) && forall v: nat | v < 1000 :: Version(stem, v) in files
      ensures fname.Some? ==> fname.value !in old(files) && files == old(files)[fname.value := []]
      ensures fname.Some? ==> exists v: nat | v < 1000 :: fname.value == Version(stem, v)
    {
      for version := 0 to 1000
        invariant files == old(files) && forall v: nat | v < version :: Version(stem, v) in files
      {
        var name := Version(stem, version);
        if name !in files {
          files := files[name := []];
          return Some(name);
        }
      }
      return None;
    }

    /** `process_first_event`; the run ends with an error when all names it tries are taken. */
    method ProcessFirstEvent(ev: Event, ghost seen: seq<Event>) returns (ok: bool)
      requires Shows(seen) && Starts(ev)
      modifies this
      ensures printed == old(printed)
      ensures ok ==> Shows(seen + [ev])
      ensures ok ==> exists f | f in files :: Named(dir, StartOf(ev), f) && files == old(files)[f := ev.block]
      ensures ok ==> forall f | f in files :: f in old(files) || DirectlyIn(dir, f)
      ensures !ok ==> Shows(seen) && files == old(files)
                      && forall v: nat | v < 1000 :: Version(Stem(dir, StartOf(ev)), v) in files
    {
      hide Gathered, Loaded, Disk.Shows, Stem, Hex, Version;
      var fname := CreateUniqueFile(Stem(dir, StartOf(ev)));
      if fname.None? {
        return false;
      }
      Started(old(Abs()), ev, fname.value, seen);
      var rec := Slot(fname, ev.CreateFile?);
      if ev.id < |slots| {
        slots := slots[ev.id := rec];
      } else {
        slots := slots + seq(ev.id - |slots|, i => EMPTY) + [rec];
      }
      assert files[fname.value] + ev.block == ev.block;
      files := files[fname.value := files[fname.value] + ev.block];
      assert files == old(files)[fname.value := ev.block];
      NamedDirectly(dir, ev, fname.value);
      ok := true;
    }

    /** `process` of an Append_block event. */
    method ProcessAppend(ev: Event, ghost seen: seq<Event>)
      requires Shows(seen) && ev.AppendBlock?
      modifies this`files
      ensures Shows(seen + [ev]) && files.Keys == old(files.Keys)
    {
      hide Gathered, Loaded, Disk.Shows;
      var fname := if ev.id < |slots| then slots[ev.id].fname else None;
      if fname.Some? {
        Appended(Abs(), ev, seen);
        files := files[fname.value := files[fname.value] + ev.block];
      } else {
        Ignored(Abs(), ev, seen);
      }
    }

    /** `grab_event` for an Exec_load event and `grab_fname` for an Execute_load_query event: the name of
        the file the statement loads, which leaves the slot empty. */
    method Grab(ev: Event, ghost seen: seq<Event>) returns (fname: Option<string>)
      requires Shows(seen) && (ev.ExecLoad? || ev.ExecuteLoadQuery?)
      modifies this`slots
      ensures fname.Some? <==> Executes(ev, Gathered(seen, ev.id))
      ensures fname.Some? ==> fname == old(Abs()).At(ev.id).fname && Abs() == old(Abs()).Put(ev.id, EMPTY)
      ensures fname.None? ==> Abs() == old(Abs())
    {
      hide Gathered, Loaded, Disk.Shows;
      Grabs(Abs(), ev, seen);
      fname := None;
      if ev.id < |slots| {
        var ptr := slots[ev.id];
        if ptr.event == ev.ExecLoad? {
          fname := ptr.fname;
          slots := slots[ev.id := EMPTY];
          assert ptr == EMPTY ==> slots == old(slots);
        }
      }
    }

    /** An execute event: the statement printed names the file with its backslashes turned. */
    method ProcessExecute(ev: Event, ghost seen: seq<Event>)
      requires Shows(seen) && (ev.ExecLoad? || ev.ExecuteLoadQuery?)
      modifies this`slots, this`printed, this`own
      ensures Shows(seen + [ev])
    {
      hide Gathered, Loaded, Disk.Shows, Forward;
      var fname := Grab(ev, seen);
      if fname.Some? {
        Printed(old(Abs()), ev, seen);
        var name := ConvertPath(fname.value);
        printed := printed + [name];
        own := own + [fname.value];
      } else {
        Ignored(Abs(), ev, seen);
      }
    }
  }

  /** A whole run: each printed statement has a file of its own, which at the end of the run holds exactly
      what the statement is to load; and the statement names that file exactly if there is no backslash in
      the directory and in the base name. With a backslash there it names none of the files of the run: what
      it names exists only if it did before. The run ends early only for want of an unused file name. */
  method Run(dir: string, existing: map<string, Block>, log: seq<Event>)
    returns (printed: seq<string>, files: map<string, Block>, done: nat, ghost own: seq<string>)
    ensures done <= |log|
    ensures var loads := Loaded(log[..done]);
            && |printed| == |own| == |loads|
            && (forall i | 0 <= i < |own| :: own[i] in files && files[own[i]] == loads[i].data)
            && (forall i, j | 0 <= i < j < |own| :: own[i] != own[j])
            && (forall i | 0 <= i < |own| :: printed[i] == own[i] <==> '\\' !in dir && '\\' !in loads[i].base)
            && (forall i | 0 <= i < |own| :: printed[i] in files <==> printed[i] == own[i] || printed[i] in existing)
    ensures done < |log| ==> && Starts(log[done])
                             && forall v: nat | v < 1000 :: Version(Stem(dir, StartOf(log[done])), v) in files
  {
    hide Gathered, Loaded, Hex, Stem, Version, Named, Forward;
    var p := new Processor(dir, existing);
    done := 0;
    var stopped := false;
    assert log[..0] == [];
    while done < |log| && !stopped
      invariant p.dir == dir && done <= |log| && p.Shows(log[..done])
      invariant existing.Keys <= p.files.Keys && forall f | f in p.files :: f in existing || DirectlyIn(dir, f)
      invariant stopped ==> done < |log| && Starts(log[done])
                            && forall v: nat | v < 1000 :: Version(Stem(dir, StartOf(log[done])), v) in p.files
      decreases |log| - done, !stopped
    {
      var ev := log[done];
      ghost var seen := log[..done];
      assert log[..done + 1] == seen + [ev];
      if Starts(ev) {
        var ok := p.ProcessFirstEvent(ev, seen);
        stopped := !ok;
      } else if ev.AppendBlock? {
        p.ProcessAppend(ev, seen);
      } else {
        p.ProcessExecute(ev, seen);
      }
      if !stopped {
        done := done + 1;
      }
    }
    printed, files, own := p.printed, p.files, p.own;
    forall i | 0 <= i < |own|
      ensures printed[i] == own[i] <==> '\\' !in dir && '\\' !in Loaded(log[..done])[i].base
    {
      NamesItsFile(dir, Loaded(log[..done])[i], own[i]);
    }
    forall i | 0 <= i < |own|
      ensures printed[i] in files <==> printed[i] == own[i] || printed[i] in existing
    {
      NamedWithin(dir, Loaded(log[..done])[i], own[i]);
      ForwardSame(own[i]);
      if printed[i] != own[i] {
        TurnedElsewhere(dir, own[i]);
      }
    }
  }

  lemma NamedWithin(dir: string, l: Load, fname: string)
    requires Named(dir, l, fname)
    ensures dir <= fname
  {
    hide Hex;
    var v: nat :| v < 1000 && fname == Version(Stem(dir, l), v);
    assert fname == dir + (l.base + "-" + Hex(l.id) + "-" + Hex(v));
  }

  lemma {:induction false} NoDirectory(path: string)
    requires '/' !in path
    ensures BaseName(path) == path
  {
    if path != "" {
      assert path[|path| - 1] in path;
      NoDirectory(path[..|path| - 1]);
    }
  }

  lemma LoadedAtOnce(start: Event, run: Event)
    requires start.CreateFile? && run == ExecLoad(start.id)
    ensures Loaded([start, run]) == [StartOf(start)]
  {
    hide Gathered, Loaded;
    NothingLoaded([]);
    Snoc([], start);
    Snoc([start], run);
    assert [] + [start] == [start] && [start] + [run] == [start, run];
  }

  lemma NothingLoaded(seen: seq<Event>)
    requires seen == []
    ensures Loaded(seen) == [] && forall id: nat :: Gathered(seen, id).None?
  {
  }

  lemma FileHasBackslash(dir: string, l: Load, fname: string)
    requires Named(dir, l, fname) && '\\' in l.base
    ensures '\\' in fname
  {
    NamesItsFile(dir, l, fname);
    ForwardSame(fname);
  }

  /** A single file whose base name holds a backslash, loaded where there are no others. */
  method LoadAlone(dir: string, path: string, block: Block) returns (printed: string, files: map<string, Block>)
    requires '\\' in BaseName(path)
    ensures printed !in files
  {
    hide Gathered, Loaded, Hex, Stem, Version, Forward, Named, BaseName;
    var p := new Processor(dir, map[]);
    var start, run := CreateFile(1, path, block), ExecLoad(1);
    ghost var name := Version(Stem(dir, StartOf(start)), 0);
    var ok := p.ProcessFirstEvent(start, []);
    files := p.files;
    ghost var fname :| fname in files && Named(dir, StartOf(start), fname) && files == map[][fname := block];
    FileHasBackslash(dir, StartOf(start), fname);
    p.ProcessExecute(run, [] + [start]);
    assert [] + [start] + [run] == [start, run];
    LoadedAtOnce(start, run);
    printed := p.printed[0];
  }

  /** A Windows path in a log that is read where only `/` separates directories: the statement printed
      names a file that is not there. */
  method BackslashInName(dir: string, path: string, block: Block) returns (printed: string, files: map<string, Block>)
    requires path == "C:\\tmp\\x.txt"
    ensures printed !in files
  {
    assert path[2] == '\\';
    NoDirectory(path);
    printed, files := LoadAlone(dir, path, block);
  }
}
