/** What a flashback run does to a whole log: which statements come out, in which order, and that
    executing them takes every table back to its contents before the log. */
module FlashbackUndo {
  import opened Common
  import opened RowImages
  import opened Flashback

  /** A logged statement, its table maps before its rows events, or an event of its own. */
  datatype Group =
    | Statement(note: Option<Event>, maps: seq<Event>, rows: seq<Event>)
    | Single(ev: Event)
  {
    ghost predicate Complete() {
      match this
      case Single(ev) => ev.Other? || ev.Stop?
      case Statement(note, maps, rows) =>
        && (note.Some? ==> note.value.Annotate?)
        && (forall i | 0 <= i < |maps| :: maps[i].TableMap?)
        && AllRows(rows) && rows != [] && forall i | 0 <= i < |rows| :: rows[i].stmtEnd == (i == |rows| - 1)
    }

    /** The statement maps its tables itself. */
    ghost predicate Covers() {
      Statement? ==> forall i | 0 <= i < |rows| && rows[i].Rows? :: rows[i].table in TablesOf(maps)
    }

    ghost function Events(): seq<Event> {
      match this
      case Single(ev) => [ev]
      case Statement(note, maps, rows) => (if note.None? then [] else [note.value]) + maps + rows
    }

    /** The statement flashback prints for it: the maps, and the inverse rows events from the last to the
        first, of which only the last printed one ends the statement. */
    ghost function Undone(len: Reader): seq<Item>
      requires Complete()
    {
      match this
      case Single(ev) => if ev.Other? then TextOutput(ev.text) else []
      case Statement(_, maps, rows) => MapItems(maps) + InverseBack(len, FirstEnds(rows))
    }
  }

  ghost function TablesOf(maps: seq<Event>): set<nat> {
    set i | 0 <= i < |maps| && maps[i].TableMap? :: maps[i].table
  }

  /** A rows event with its rows inverted. */
  ghost function Inverse(len: Reader, e: Event): Item
    requires e.Rows?
  {
    RowsItem(Opposite(e.kind), e.table, Flipped(len(e.table), e.kind, e.data), e.stmtEnd)
  }

  ghost function InverseBack(len: Reader, p: seq<Event>): seq<Item>
    requires AllRows(p)
  {
    if p == [] then [] else InverseBack(len, p[1..]) + [Inverse(len, p[0])]
  }

  /** Rows events of known tables are printed as their inverses. */
  lemma {:induction false} PrintedInverse(len: Reader, known: set<nat>, p: seq<Event>)
    requires AllRows(p) && forall i | 0 <= i < |p| :: p[i].table in known
    ensures PrintedBack(len, known, p) == InverseBack(len, p)
  {
    if p != [] {
      PrintedInverse(len, known, p[1..]);
    }
  }

  ghost function MapItems(maps: seq<Event>): seq<Item>
    requires forall i | 0 <= i < |maps| :: maps[i].TableMap?
  {
    seq(|maps|, i requires 0 <= i < |maps| => MapItem(maps[i].table))
  }

  /** The same rows events, the statement-end flag moved to the first. */
  ghost function FirstEnds(rows: seq<Event>): (r: seq<Event>)
    requires AllRows(rows)
    ensures |r| == |rows| && forall i | 0 <= i < |r| :: r[i] == rows[i].(stmtEnd := i == 0)
  {
    seq(|rows|, i requires 0 <= i < |rows| => rows[i].(stmtEnd := i == 0))
  }

  ghost predicate Idle(s: State) {
    s.pending == [] && s.cache == [] && s.annotate.None?
  }

  // ----- one statement -----

  lemma {:induction false} StepsConcat(len: Reader, s: State, a: seq<Event>, b: seq<Event>)
    requires s.Valid()
    ensures Steps(len, s, a + b) == Steps(len, Steps(len, s, a), b)
    decreases |b|
  {
    if b == [] {
      assert a + b == a;
    } else {
      var init := b[..|b| - 1];
      StepsConcat(len, s, a, init);
      assert (a + b)[..|a + b| - 1] == a + init;
    }
  }

  lemma {:induction false} MapsStep(len: Reader, s: State, maps: seq<Event>)
    requires s.Valid() && s.pending == [] && maps != []
    requires forall i | 0 <= i < |maps| :: maps[i].TableMap?
    ensures Steps(len, s, maps) == s.(cache := s.cache + MapItems(maps), annotate := None,
                                      deleted := s.deleted + s.Annotated() + Ids(maps),
                                      known := s.known + TablesOf(maps))
  {
    hide Step, TablesOf, MapItems, Ids;
    var init, last := maps[..|maps| - 1], maps[|maps| - 1];
    assert maps == init + [last];
    MapsSnoc(init, last);
    TablesSnoc(init, last, s.known);
    if init != [] {
      MapsStep(len, s, init);
      MapStep(len, Steps(len, s, init), last);
      var given := s.deleted + s.Annotated();
      assert given + Ids(init) + [] + [last.id] == given + (Ids(init) + [last.id]);
      assert s.cache + MapItems(init) + [MapItem(last.table)] == s.cache + (MapItems(init) + [MapItem(last.table)]);
    } else {
      NoMaps(len, s, init);
      MapStep(len, s, last);
      assert [] + [last.id] == [last.id] && [] + [MapItem(last.table)] == [MapItem(last.table)];
      assert s.known + {} == s.known;
    }
  }

  lemma MapStep(len: Reader, s: State, e: Event)
    requires s.Valid() && s.pending == [] && e.TableMap?
    ensures Step(len, s, e) == s.(cache := s.cache + [MapItem(e.table)], annotate := None,
                                  deleted := s.deleted + s.Annotated() + [e.id], known := s.known + {e.table})
  {
  }

  lemma MapsSnoc(maps: seq<Event>, e: Event)
    requires e.TableMap? && forall i | 0 <= i < |maps| :: maps[i].TableMap?
    ensures MapItems(maps + [e]) == MapItems(maps) + [MapItem(e.table)] && Ids(maps + [e]) == Ids(maps) + [e.id]
  {
  }

  lemma TablesSnoc(maps: seq<Event>, e: Event, known: set<nat>)
    requires e.TableMap?
    ensures known + TablesOf(maps) + {e.table} == known + TablesOf(maps + [e])
  {
    var all := maps + [e];
    forall t
      ensures t in TablesOf(all) <==> t in TablesOf(maps) + {e.table}
    {
      if t in TablesOf(maps) {
        var i :| 0 <= i < |maps| && maps[i].TableMap? && maps[i].table == t;
        assert all[i] == maps[i];
      }
      assert all[|maps|] == e;
    }
  }

  lemma {:induction false} RowsStep(len: Reader, s: State, rows: seq<Event>)
    requires s.Valid() && s.pending == [] && AllRows(rows)
    requires forall i | 0 <= i < |rows| :: !rows[i].stmtEnd
    ensures Steps(len, s, rows) == s.(pending := FirstEnds(rows))
  {
    if rows != [] {
      var init, last := rows[..|rows| - 1], rows[|rows| - 1];
      RowsStep(len, s, init);
      assert FirstEnds(rows) == FirstEnds(init) + [last.(stmtEnd := init == [])];
    } else {
      assert FirstEnds(rows) == [];
    }
  }

  /** A statement read from its first rows event to its last: printed whole, and all deleted. */
  lemma StatementRows(len: Reader, s: State, rows: seq<Event>)
    requires s.Valid() && s.pending == [] && AllRows(rows) && rows != []
    requires forall i | 0 <= i < |rows| :: rows[i].stmtEnd == (i == |rows| - 1)
    ensures Steps(len, s, rows) ==
            State([], [], s.held + [s.cache + PrintedBack(len, s.known, FirstEnds(rows))], s.stopEvent, None,
                  s.deleted + s.Annotated() + Ids(rows), s.known)
  {
    hide PrintedBack;
    var init, last := rows[..|rows| - 1], rows[|rows| - 1];
    RowsStep(len, s, init);
    assert FirstEnds(rows) == FirstEnds(init) + [last.(stmtEnd := init == [])];
    assert Ids(FirstEnds(rows)) == Ids(rows);
  }

  lemma IdsConcat(a: seq<Event>, b: seq<Event>)
    ensures Ids(a + b) == Ids(a) + Ids(b)
  {
  }

  /** Its table maps read first. */
  lemma StatementMaps(len: Reader, s: State, maps: seq<Event>, rows: seq<Event>)
    requires s.Valid() && s.pending == [] && s.cache == [] && Statement(None, maps, rows).Complete()
    ensures var known := s.known + TablesOf(maps);
            Steps(len, s, maps + rows) ==
            State([], [], s.held + [MapItems(maps) + PrintedBack(len, known, FirstEnds(rows))], s.stopEvent, None,
                  s.deleted + s.Annotated() + Ids(maps + rows), known)
  {
    hide Step, Steps, PrintedBack, FirstEnds, Ids, MapItems, TablesOf;
    StepsConcat(len, s, maps, rows);
    IdsConcat(maps, rows);
    var given := s.deleted + s.Annotated();
    if maps == [] {
      NoMaps(len, s, maps);
      StatementRows(len, s, rows);
      assert given + ([] + Ids(rows)) == given + Ids(rows);
      assert s.known + {} == s.known;
      var printed := PrintedBack(len, s.known, FirstEnds(rows));
      assert [] + printed == printed;
    } else {
      MapsStep(len, s, maps);
      StatementRows(len, Steps(len, s, maps), rows);
      assert [] + MapItems(maps) == MapItems(maps);
      assert given + Ids(maps) + [] + Ids(rows) == given + (Ids(maps) + Ids(rows));
    }
  }

  lemma NoMaps(len: Reader, s: State, maps: seq<Event>)
    requires s.Valid() && maps == []
    ensures MapItems(maps) == [] && Steps(len, s, maps) == s && Ids(maps) == [] && TablesOf(maps) == {}
  {
  }

  /** A complete statement, or an event of its own, adds its inverse to what is held back, and its
      events have been deleted in order. */
  lemma GroupStep(len: Reader, s: State, g: Group)
    requires s.Valid() && Idle(s) && g.Complete() && g.Covers()
    ensures var r := Steps(len, s, g.Events());
            Idle(r) && r.held == s.Hold(g.Undone(len)).held && r.deleted == s.deleted + Ids(g.Events())
            && (r.stopEvent == s.stopEvent || (g.Single? && r.stopEvent == [TextItem(g.ev.text)]))
  {
    match g
    case Single(ev) =>
      assert [ev][..0] == [];
      assert Steps(len, s, []) == s;
      assert Ids([ev]) == [ev.id];
    case Statement(note, maps, rows) =>
      StatementStep(len, s, g);
  }

  lemma StatementStep(len: Reader, s: State, g: Group)
    requires s.Valid() && Idle(s) && g.Statement? && g.Complete() && g.Covers()
    ensures Steps(len, s, g.Events()) ==
            State([], [], s.held + [g.Undone(len)], s.stopEvent, None, s.deleted + Ids(g.Events()),
                  s.known + TablesOf(g.maps))
    ensures g.Undone(len) != []
  {
    hide Step, Steps, Ids, MapItems, TablesOf;
    var first := if g.note.None? then [] else [g.note.value];
    assert g.Events() == first + (g.maps + g.rows);
    NoteStep(len, s, g.note);
    StepsConcat(len, s, first, g.maps + g.rows);
    StatementMaps(len, s.(annotate := g.note), g.maps, g.rows);
    PrintedInverse(len, s.known + TablesOf(g.maps), FirstEnds(g.rows));
    IdsConcat(first, g.maps + g.rows);
    assert s.deleted + Ids(first) + Ids(g.maps + g.rows) == s.deleted + (Ids(first) + Ids(g.maps + g.rows));
  }

  lemma NoteStep(len: Reader, s: State, note: Option<Event>)
    requires s.Valid() && Idle(s) && (note.Some? ==> note.value.Annotate?)
    ensures var first := if note.None? then [] else [note.value];
            Steps(len, s, first) == s.(annotate := note) && Ids(first) == s.(annotate := note).Annotated()
  {
    if note.Some? {
      assert [note.value][..0] == [];
      assert Steps(len, s, []) == s;
      assert s.deleted + [] == s.deleted;
    }
  }

  // ----- the whole log -----

  ghost predicate AllComplete(log: seq<Group>) {
    forall i | 0 <= i < |log| :: log[i].Complete()
  }

  ghost predicate AllCover(log: seq<Group>) {
    forall i | 0 <= i < |log| :: log[i].Covers()
  }

  ghost function Flat(log: seq<Group>): seq<Event> {
    if log == [] then [] else Flat(log[..|log| - 1]) + log[|log| - 1].Events()
  }

  /** The inverse of the last group first. */
  ghost function Undoing(len: Reader, log: seq<Group>): seq<Item>
    requires AllComplete(log)
  {
    if log == [] then [] else log[|log| - 1].Undone(len) + Undoing(len, log[..|log| - 1])
  }

  lemma {:induction false} BackSnoc(held: seq<seq<Item>>, x: seq<Item>)
    ensures Back(held + [x]) == x + Back(held)
  {
    if held == [] {
      assert (held + [x])[1..] == [] && [] + x == x + [];
    } else {
      assert (held + [x])[1..] == held[1..] + [x];
      BackSnoc(held[1..], x);
      assert x + Back(held[1..]) + held[0] == x + (Back(held[1..]) + held[0]);
    }
  }

  ghost predicate TextOnly(items: seq<Item>) {
    forall i | 0 <= i < |items| :: items[i].TextItem?
  }

  /** After any run of complete statements that map their tables, what is printed is the inverse of every
      statement, the last statement first; nothing is pending, and every event has been deleted exactly once, in
      log order. */
  lemma {:induction false} FlashbackReverses(len: Reader, log: seq<Group>)
    requires AllComplete(log) && AllCover(log)
    ensures var end := Steps(len, Start(), Flat(log));
            Idle(end) && Back(end.held) == Undoing(len, log) && end.deleted == Ids(Flat(log)) && TextOnly(end.stopEvent)
  {
    hide Step, Steps, Ids;
    if log == [] {
      NoMaps(len, Start(), []);
    } else {
      var init, g := log[..|log| - 1], log[|log| - 1];
      FlashbackReverses(len, init);
      StepsConcat(len, Start(), Flat(init), g.Events());
      var s := Steps(len, Start(), Flat(init));
      GroupStep(len, s, g);
      BackHold(s, g.Undone(len));
      IdsConcat(Flat(init), g.Events());
    }
  }

  lemma BackHold(s: State, output: seq<Item>)
    ensures Back(s.Hold(output).held) == output + Back(s.held)
  {
    if output != [] {
      BackSnoc(s.held, output);
    }
  }

  // ----- executing a log -----

  type Db = map<nat, Table>

  /** A replica: its tables, and the tables mapped by the statement being executed. */
  datatype Site = Site(db: Db, mapped: set<nat>)

  /** How rows are read off their bytes, and what the tables may contain. */
  datatype Rules = Rules(len: Reader, allowed: nat -> (Table -> bool))
  {
    ghost predicate Valid() {
      AllLocal(len)
    }
  }

  ghost predicate Lawful(rules: Rules, db: Db) {
    forall t | t in db :: rules.allowed(t)(db[t])
  }

  ghost function ExecRows(rules: Rules, it: Item, db: Db): Option<Db>
    requires it.RowsItem?
  {
    var rows := Decoded(rules.len(it.table), it.kind, it.data);
    if it.table !in db || rows.None? then None
    else
      var t := ApplyAll(rules.allowed(it.table), it.kind, rows.value, db[it.table]);
      if t.None? then None else Some(db[it.table := t.value])
  }

  /** A rows event needs its table mapped, and ends all mappings if it ends the statement; text is
      transaction control, which leaves the tables as they are. */
  ghost function ExecItem(rules: Rules, it: Item, x: Site): Option<Site> {
    match it
    case TextItem(_) => Some(x)
    case MapItem(t) => Some(x.(mapped := x.mapped + {t}))
    case RowsItem(_, table, _, stmtEnd) =>
      var db := if table in x.mapped then ExecRows(rules, it, x.db) else None;
      if db.None? then None else Some(Site(db.value, if stmtEnd then {} else x.mapped))
  }

  ghost function Exec(rules: Rules, items: seq<Item>, x: Site): Option<Site> {
    if items == [] then Some(x)
    else
      var y := ExecItem(rules, items[0], x);
      if y.None? then None else Exec(rules, items[1..], y.value)
  }

  /** An event as it stands in the log. */
  ghost function Logged(e: Event): Item {
    match e
    case Rows(_, kind, table, data, stmtEnd) => RowsItem(kind, table, data, stmtEnd)
    case TableMap(_, table) => MapItem(table)
    case Annotate(_) => TextItem("")
    case Stop(_, text) => TextItem(text)
    case Other(_, text) => TextItem(text)
  }

  ghost function LoggedAll(log: seq<Event>): seq<Item> {
    seq(|log|, i requires 0 <= i < |log| => Logged(log[i]))
  }

  lemma {:induction false} ExecConcat(rules: Rules, a: seq<Item>, b: seq<Item>, x: Site)
    ensures Exec(rules, a + b, x) == (var y := Exec(rules, a, x); if y.None? then None else Exec(rules, b, y.value))
  {
    if a == [] {
      assert a + b == b;
    } else {
      assert (a + b)[1..] == a[1..] + b;
      var y := ExecItem(rules, a[0], x);
      if y.Some? {
        ExecConcat(rules, a[1..], b, y.value);
      }
    }
  }

  lemma {:induction false} ExecText(rules: Rules, items: seq<Item>, x: Site)
    requires TextOnly(items)
    ensures Exec(rules, items, x) == Some(x)
  {
    if items != [] {
      ExecText(rules, items[1..], x);
    }
  }

  lemma TablesCons(maps: seq<Event>)
    requires maps != [] && maps[0].TableMap?
    ensures TablesOf(maps) == {maps[0].table} + TablesOf(maps[1..])
  {
    forall t
      ensures t in TablesOf(maps) <==> t in {maps[0].table} + TablesOf(maps[1..])
    {
      if t in TablesOf(maps) {
        var i :| 0 <= i < |maps| && maps[i].TableMap? && maps[i].table == t;
        assert i > 0 ==> maps[1..][i - 1] == maps[i];
      }
      if t in TablesOf(maps[1..]) {
        var i :| 0 <= i < |maps[1..]| && maps[1..][i].TableMap? && maps[1..][i].table == t;
        assert maps[i + 1] == maps[1..][i];
      }
    }
  }

  lemma {:induction false} ExecMaps(rules: Rules, maps: seq<Event>, x: Site)
    requires forall i | 0 <= i < |maps| :: maps[i].TableMap?
    ensures Exec(rules, MapItems(maps), x) == Some(Site(x.db, x.mapped + TablesOf(maps)))
  {
    if maps != [] {
      assert MapItems(maps)[1..] == MapItems(maps[1..]);
      ExecMaps(rules, maps[1..], x.(mapped := x.mapped + {maps[0].table}));
      TablesCons(maps);
      assert x.mapped + {maps[0].table} + TablesOf(maps[1..]) == x.mapped + TablesOf(maps);
    } else {
      assert TablesOf(maps) == {} && x.mapped + {} == x.mapped;
    }
  }

  // ----- rows events -----

  ghost predicate RowItems(items: seq<Item>) {
    forall i | 0 <= i < |items| :: items[i].RowsItem?
  }

  /** Rows events of which the last, and only the last, ends the statement. */
  ghost predicate Ended(items: seq<Item>) {
    items != [] && RowItems(items) && forall i | 0 <= i < |items| :: items[i].stmtEnd == (i == |items| - 1)
  }

  ghost predicate Covered(items: seq<Item>, m: set<nat>)
    requires RowItems(items)
  {
    forall i | 0 <= i < |items| :: items[i].table in m
  }

  ghost function ExecAll(rules: Rules, items: seq<Item>, db: Db): Option<Db>
    requires RowItems(items)
  {
    if items == [] then Some(db)
    else
      var next := ExecRows(rules, items[0], db);
      if next.None? then None else ExecAll(rules, items[1..], next.value)
  }

  /** A statement's rows events run exactly if all their tables are mapped and every row applies. */
  lemma {:induction false} ExecEnded(rules: Rules, items: seq<Item>, db: Db, m: set<nat>)
    requires Ended(items)
    ensures Exec(rules, items, Site(db, m)) ==
            (var after := ExecAll(rules, items, db);
             if Covered(items, m) && after.Some? then Some(Site(after.value, {})) else None)
  {
    hide ExecRows;
    var next := ExecRows(rules, items[0], db);
    assert Covered(items, m) <==> items[0].table in m && Covered(items[1..], m);
    if |items| == 1 {
      assert items[1..] == [];
    } else if items[0].table in m && next.Some? {
      ExecEnded(rules, items[1..], next.value, m);
    }
  }

  lemma {:induction false} ExecAllSnoc(rules: Rules, items: seq<Item>, it: Item, db: Db)
    requires RowItems(items) && it.RowsItem? && ExecAll(rules, items, db).Some?
    ensures RowItems(items + [it])
    ensures ExecAll(rules, items + [it], db) == ExecRows(rules, it, ExecAll(rules, items, db).value)
  {
    hide ExecRows;
    if items == [] {
      assert [it][1..] == [];
      assert items + [it] == [it];
    } else {
      assert (items + [it])[1..] == items[1..] + [it];
      ExecAllSnoc(rules, items[1..], it, ExecRows(rules, items[0], db).value);
    }
  }

  /** Which event ends the statement makes no difference to the rows. */
  lemma {:induction false} FlagsAside(rules: Rules, a: seq<Event>, b: seq<Event>, db: Db)
    requires AllRows(a) && AllRows(b) && |a| == |b|
    requires forall i | 0 <= i < |a| :: a[i].(stmtEnd := b[i].stmtEnd) == b[i]
    ensures ExecAll(rules, LoggedAll(a), db) == ExecAll(rules, LoggedAll(b), db)
  {
    if a != [] {
      assert LoggedAll(a)[1..] == LoggedAll(a[1..]) && LoggedAll(b)[1..] == LoggedAll(b[1..]);
      var next := ExecRows(rules, Logged(a[0]), db);
      if next.Some? {
        FlagsAside(rules, a[1..], b[1..], next.value);
      }
    }
  }

  lemma {:induction false} InverseBackAt(len: Reader, p: seq<Event>)
    requires AllRows(p)
    ensures |InverseBack(len, p)| == |p|
    ensures forall i | 0 <= i < |p| :: InverseBack(len, p)[i] == Inverse(len, p[|p| - 1 - i])
  {
    if p != [] {
      InverseBackAt(len, p[1..]);
    }
  }

  lemma UndoEvent(rules: Rules, e: Event, db: Db)
    requires e.Rows? && rules.Valid() && Lawful(rules, db) && ExecRows(rules, Logged(e), db).Some?
    ensures var after := ExecRows(rules, Logged(e), db).value;
            Lawful(rules, after) && ExecRows(rules, Inverse(rules.len, e), after) == Some(db)
  {
    hide Decoded, Flipped;
    var t, rows := db[e.table], Decoded(rules.len(e.table), e.kind, e.data).value;
    FlippedDecodes(rules.len(e.table), e.kind, e.data);
    StaysAllowed(rules.allowed(e.table), e.kind, rows, t);
    UndoRestores(rules.allowed(e.table), e.kind, rows, t);
    var after := ExecRows(rules, Logged(e), db).value;
    assert after[e.table := t] == db;
  }

  /** Rows events and then their inverses from the last to the first. */
  lemma {:induction false} UndoEvents(rules: Rules, p: seq<Event>, db: Db)
    requires AllRows(p) && rules.Valid() && Lawful(rules, db)
    requires RowItems(LoggedAll(p)) && ExecAll(rules, LoggedAll(p), db).Some?
    ensures RowItems(InverseBack(rules.len, p))
    ensures var after := ExecAll(rules, LoggedAll(p), db).value;
            Lawful(rules, after) && ExecAll(rules, InverseBack(rules.len, p), after) == Some(db)
  {
    hide ExecRows, Lawful;
    InverseBackAt(rules.len, p);
    if p != [] {
      assert LoggedAll(p)[1..] == LoggedAll(p[1..]);
      UndoEvent(rules, p[0], db);
      UndoEvents(rules, p[1..], ExecRows(rules, Logged(p[0]), db).value);
      ExecAllSnoc(rules, InverseBack(rules.len, p[1..]), Inverse(rules.len, p[0]),
                  ExecAll(rules, LoggedAll(p), db).value);
    }
  }

  lemma UndoneRows(len: Reader, rows: seq<Event>, m: set<nat>)
    requires AllRows(rows) && rows != [] && RowItems(LoggedAll(rows)) && Covered(LoggedAll(rows), m)
    ensures var back := InverseBack(len, FirstEnds(rows)); Ended(back) && Covered(back, m)
  {
    var p := FirstEnds(rows);
    InverseBackAt(len, p);
    forall i | 0 <= i < |rows| ensures p[i].table in m {
      assert LoggedAll(rows)[i].table in m;
    }
  }

  // ----- flashback undoes the log -----

  lemma LoggedConcat(a: seq<Event>, b: seq<Event>)
    ensures LoggedAll(a + b) == LoggedAll(a) + LoggedAll(b)
  {
  }

  lemma UndoRowsOf(rules: Rules, rows: seq<Event>, m: set<nat>, db: Db)
    requires rows != [] && AllRows(rows) && Ended(LoggedAll(rows)) && rules.Valid() && Lawful(rules, db)
    requires Exec(rules, LoggedAll(rows), Site(db, m)).Some?
    ensures Covered(LoggedAll(rows), m)
    ensures var after := Exec(rules, LoggedAll(rows), Site(db, m)).value;
            && after.mapped == {} && Lawful(rules, after.db)
            && Exec(rules, InverseBack(rules.len, FirstEnds(rows)), Site(after.db, m)) == Some(Site(db, {}))
  {
    hide ExecRows, ExecAll, Exec, InverseBack, FirstEnds, Covered, Ended, Lawful;
    ExecEnded(rules, LoggedAll(rows), db, m);
    UndoneRows(rules.len, rows, m);
    FlagsAside(rules, rows, FirstEnds(rows), db);
    UndoEvents(rules, FirstEnds(rows), db);
    ExecEnded(rules, InverseBack(rules.len, FirstEnds(rows)), ExecAll(rules, LoggedAll(rows), db).value, m);
  }

  lemma UndoGroup(rules: Rules, g: Group, db: Db)
    requires g.Complete() && rules.Valid() && Lawful(rules, db)
    requires Exec(rules, LoggedAll(g.Events()), Site(db, {})).Some?
    ensures g.Covers()
    ensures var after := Exec(rules, LoggedAll(g.Events()), Site(db, {})).value;
            && after.mapped == {} && Lawful(rules, after.db)
            && Exec(rules, g.Undone(rules.len), after) == Some(Site(db, {}))
  {
    match g
    case Single(ev) =>
      ExecText(rules, LoggedAll([ev]), Site(db, {}));
      ExecText(rules, g.Undone(rules.len), Site(db, {}));
    case Statement(note, maps, rows) =>
      UndoStatement(rules, g, db);
  }

  lemma UndoStatement(rules: Rules, g: Group, db: Db)
    requires g.Statement? && g.Complete() && rules.Valid() && Lawful(rules, db)
    requires Exec(rules, LoggedAll(g.Events()), Site(db, {})).Some?
    ensures g.Covers()
    ensures var after := Exec(rules, LoggedAll(g.Events()), Site(db, {})).value;
            && after.mapped == {} && Lawful(rules, after.db)
            && Exec(rules, g.Undone(rules.len), after) == Some(Site(db, {}))
  {
    hide ExecRows, Exec, InverseBack, FirstEnds, Lawful, TablesOf;
    var note := if g.note.None? then [] else [g.note.value];
    LoggedConcat(note + g.maps, g.rows);
    LoggedConcat(note, g.maps);
    assert LoggedAll(g.maps) == MapItems(g.maps);
    ExecConcat(rules, LoggedAll(note) + MapItems(g.maps), LoggedAll(g.rows), Site(db, {}));
    ExecConcat(rules, LoggedAll(note), MapItems(g.maps), Site(db, {}));
    ExecText(rules, LoggedAll(note), Site(db, {}));
    ExecMaps(rules, g.maps, Site(db, {}));
    var m := TablesOf(g.maps);
    assert {} + m == m;
    UndoRowsOf(rules, g.rows, m, db);
    assert forall i | 0 <= i < |g.rows| :: g.rows[i].table == LoggedAll(g.rows)[i].table;
    var after := Exec(rules, LoggedAll(g.rows), Site(db, m)).value;
    ExecMaps(rules, g.maps, after);
    ExecConcat(rules, MapItems(g.maps), InverseBack(rules.len, FirstEnds(g.rows)), after);
  }

  lemma NoneCover(log: seq<Group>)
    requires log == []
    ensures AllCover(log)
  {
  }

  lemma CoverSnoc(log: seq<Group>, g: Group)
    requires AllCover(log) && g.Covers()
    ensures AllCover(log + [g])
  {
    hide Group.Covers;
  }

  lemma {:induction false} UndoingRestores(rules: Rules, log: seq<Group>, db: Db)
    requires AllComplete(log) && rules.Valid() && Lawful(rules, db)
    requires Exec(rules, LoggedAll(Flat(log)), Site(db, {})).Some?
    ensures AllCover(log)
    ensures var after := Exec(rules, LoggedAll(Flat(log)), Site(db, {})).value;
            && after.mapped == {} && Lawful(rules, after.db)
            && Exec(rules, Undoing(rules.len, log), after) == Some(Site(db, {}))
  {
    hide Lawful, Group.Covers, Group.Undone, Group.Events, AllCover, ExecItem;
    if log == [] {
      NoneCover(log);
    } else {
      var init, g := log[..|log| - 1], log[|log| - 1];
      LoggedConcat(Flat(init), g.Events());
      ExecConcat(rules, LoggedAll(Flat(init)), LoggedAll(g.Events()), Site(db, {}));
      UndoingRestores(rules, init, db);
      var mid := Exec(rules, LoggedAll(Flat(init)), Site(db, {})).value;
      UndoGroup(rules, g, mid.db);
      CoverSnoc(init, g);
      assert init + [g] == log;
      ExecConcat(rules, g.Undone(rules.len), Undoing(rules.len, init),
                 Exec(rules, LoggedAll(Flat(log)), Site(db, {})).value);
    }
  }

  lemma {:induction false} ExecDecodes(rules: Rules, items: seq<Item>, x: Site, i: nat)
    requires Exec(rules, items, x).Some? && i < |items| && items[i].RowsItem?
    ensures Decoded(rules.len(items[i].table), items[i].kind, items[i].data).Some?
  {
    if i > 0 {
      ExecDecodes(rules, items[1..], ExecItem(rules, items[0], x).value, i - 1);
    }
  }

  /** A rows event of the log, its flag aside. */
  ghost predicate FromLog(log: seq<Event>, e: Event) {
    e.Rows? && exists j | 0 <= j < |log| :: log[j].Rows? && log[j].(stmtEnd := e.stmtEnd) == e
  }

  lemma {:induction false} PendingFromLog(len: Reader, log: seq<Event>, e: Event)
    requires e in Steps(len, Start(), log).pending
    ensures FromLog(log, e)
  {
    if log != [] {
      var init, l := log[..|log| - 1], log[|log| - 1];
      var s := Steps(len, Start(), init);
      if e in s.pending {
        PendingFromLog(len, init, e);
        var j :| 0 <= j < |init| && init[j].Rows? && init[j].(stmtEnd := e.stmtEnd) == e;
        assert log[j] == init[j];
      } else {
        assert log[|log| - 1].Rows? && l.(stmtEnd := e.stmtEnd) == e;
      }
    }
  }

  /** A log that a replica executes never makes the run give up. */
  lemma NeverGivesUp(rules: Rules, log: seq<Event>, x: Site, i: nat)
    requires Exec(rules, LoggedAll(log), x).Some? && i < |log|
    ensures !GivesUp(rules.len, Steps(rules.len, Start(), log[..i]), log[i])
  {
    hide Exec, Steps, Decoded;
    var s := Steps(rules.len, Start(), log[..i]);
    var all := s.pending + [log[i]];
    forall k | 0 <= k < |all|
      ensures Legible(rules.len, s.known, all[k])
    {
      if all[k].Rows? {
        var j := i;
        if k < |s.pending| {
          PendingFromLog(rules.len, log[..i], all[k]);
          j :| 0 <= j < i && log[..i][j].Rows? && log[..i][j].(stmtEnd := all[k].stmtEnd) == all[k];
        }
        ExecDecodes(rules, LoggedAll(log), x, j);
      }
    }
  }

  /** Executing a log of complete statements, and after it what flashback prints for that log, takes
      every table back to its contents before the log, never leaving what `rules` allow. */
  lemma FlashbackUndoes(rules: Rules, log: seq<Group>, db: Db)
    requires AllComplete(log) && rules.Valid() && Lawful(rules, db)
    requires Exec(rules, LoggedAll(Flat(log)), Site(db, {})).Some?
    ensures Exec(rules, Output(Steps(rules.len, Start(), Flat(log))),
                 Exec(rules, LoggedAll(Flat(log)), Site(db, {})).value)
            == Some(Site(db, {}))
  {
    hide Steps, Step, Exec, Lawful;
    UndoingRestores(rules, log, db);
    FlashbackReverses(rules.len, log);
    var end := Steps(rules.len, Start(), Flat(log));
    var after := Exec(rules, LoggedAll(Flat(log)), Site(db, {})).value;
    ExecConcat(rules, Undoing(rules.len, log), [COMMIT] + end.stopEvent, after);
    ExecText(rules, [COMMIT] + end.stopEvent, Site(db, {}));
    assert Output(end) == Undoing(rules.len, log) + ([COMMIT] + end.stopEvent);
  }
}
