/** Flashback in mysqlbinlog (client/mysqlbinlog.cc): the events of a log are processed in order, and
    their inverses are printed from the last to the first. Kept events and their destruction included. */
module Flashback {
  import opened Common
  import opened RowImages

  /** How long a row image of a table is, by its bytes. */
  type Reader = nat -> (seq<byte> -> nat)

  ghost predicate AllLocal(len: Reader) {
    forall t :: Local(len(t))
  }

  /** A logged event; `data` is the rows part of a rows event, as stored. */
  datatype Event =
    | Rows(id: nat, kind: Kind, table: nat, data: seq<byte>, stmtEnd: bool)
    | TableMap(id: nat, table: nat)
    | Annotate(id: nat)
    | Stop(id: nat, text: string)
    | Other(id: nat, text: string)

  /** What is printed: a table map or a rows event inside a BINLOG statement, or other text. */
  datatype Item =
    | MapItem(table: nat)
    | RowsItem(kind: Kind, table: nat, data: seq<byte>, stmtEnd: bool)
    | TextItem(text: string)

  function TextOutput(text: string): seq<Item> {
    if text == "" then [] else [TextItem(text)]
  }

  /** A rows event as flashback prints it: its kind is always turned, its rows only if a table map of its
      table has been read. */
  function Printed(len: Reader, known: set<nat>, e: Event): Item
    requires e.Rows?
  {
    var data := if e.table in known then Flipped(len(e.table), e.kind, e.data) else e.data;
    RowsItem(Opposite(e.kind), e.table, data, e.stmtEnd)
  }

  /** The rows of the event can be told apart, if it has any that are to be changed. */
  predicate Legible(len: Reader, known: set<nat>, e: Event) {
    e.Rows? && e.table in known ==> Decoded(len(e.table), e.kind, e.data).Some?
  }

  ghost predicate AllLegible(len: Reader, known: set<nat>, p: seq<Event>) {
    forall i | 0 <= i < |p| :: Legible(len, known, p[i])
  }

  ghost predicate AllRows(p: seq<Event>) {
    forall i | 0 <= i < |p| :: p[i].Rows?
  }

  /** Rows events printed from the last to the first. */
  ghost function PrintedBack(len: Reader, known: set<nat>, p: seq<Event>): seq<Item>
    requires AllRows(p)
  {
    if p == [] then [] else PrintedBack(len, known, p[1..]) + [Printed(len, known, p[0])]
  }

  ghost function Ids(p: seq<Event>): seq<nat> {
    seq(|p|, i requires 0 <= i < |p| => p[i].id)
  }

  // ----- one event -----

  datatype State = State(pending: seq<Event>, cache: seq<Item>, held: seq<seq<Item>>, stopEvent: seq<Item>,
                         annotate: Option<Event>, deleted: seq<nat>, known: set<nat>)
  {
    ghost predicate Valid() {
      AllRows(pending) && forall i | 0 <= i < |pending| :: pending[i].stmtEnd == (i == 0)
    }

    ghost function Annotated(): seq<nat> {
      if annotate.None? then [] else [annotate.value.id]
    }

    ghost function Hold(output: seq<Item>): State {
      if output == [] then this else this.(held := held + [output])
    }
  }

  ghost function Step(len: Reader, s: State, ev: Event): State
    requires s.Valid()
  {
    match ev
    case Annotate(_) => s.(annotate := Some(ev), deleted := s.deleted + s.Annotated())
    case TableMap(id, table) =>
      s.(pending := [], cache := s.cache + [MapItem(table)], annotate := None,
         deleted := s.deleted + s.Annotated() + [id], known := s.known + {table})
    case Rows(id, _, _, _, stmtEnd) =>
      var all := s.pending + [ev.(stmtEnd := s.pending == [])];
      if !stmtEnd then s.(pending := all)
      else
        State([], [], s.held + [s.cache + PrintedBack(len, s.known, all)], s.stopEvent, None,
              s.deleted + s.Annotated() + Ids(all), s.known)
    case Stop(id, text) =>
      var t := if text == "" then s.stopEvent else [TextItem(text)];
      s.(stopEvent := t, deleted := s.deleted + [id])
    case Other(id, text) => s.Hold(TextOutput(text)).(deleted := s.deleted + [id])
  }

  /** The event ends a statement that cannot be printed, and the run with it. */
  ghost predicate GivesUp(len: Reader, s: State, ev: Event) {
    ev.Rows? && ev.stmtEnd && !AllLegible(len, s.known, s.pending + [ev])
  }

  ghost function Start(): (s: State)
    ensures s.Valid()
  {
    State([], [], [], [], None, [], {})
  }

  ghost function Steps(len: Reader, s: State, log: seq<Event>): (r: State)
    requires s.Valid()
    ensures r.Valid()
  {
    if log == [] then s
    else
      StepValid(len, Steps(len, s, log[..|log| - 1]), log[|log| - 1]);
      Step(len, Steps(len, s, log[..|log| - 1]), log[|log| - 1])
  }

  lemma StepValid(len: Reader, s: State, ev: Event)
    requires s.Valid()
    ensures Step(len, s, ev).Valid()
  {
  }

  /** The outputs from the last to the first. */
  ghost function Back(held: seq<seq<Item>>): seq<Item> {
    if held == [] then [] else Back(held[1..]) + held[0]
  }

  const COMMIT: Item := TextItem("COMMIT")

  /** What a run prints in the end. */
  ghost function Output(end: State): seq<Item> {
    Back(end.held) + [COMMIT] + end.stopEvent
  }

  // ----- the processor -----

  class Processor {
    /** How rows are told apart, from the table maps. */
    const len: Reader
    /** `events_in_stmt`: the rows events of the statement being read. */
    var pending: seq<Event>
    /** The body cache of the print info. */
    var cache: seq<Item>
    /** `binlog_events`: the outputs held back, one per event that had any. */
    var held: seq<seq<Item>>
    var stopEvent: seq<Item>
    var annotate: Option<Event>
    /** The events deleted so far, in order. */
    var deleted: seq<nat>
    /** The tables of `m_table_map`. */
    var known: set<nat>

    ghost function Abs(): State
      reads this
    {
      State(pending, cache, held, stopEvent, annotate, deleted, known)
    }

    ghost predicate Valid()
      reads this
    {
      Abs().Valid() && AllLocal(len)
    }

    constructor (len: Reader)
      requires AllLocal(len)
      ensures this.len == len && Valid() && Abs() == Start()
    {
      this.len := len;
      pending, cache, held, stopEvent, annotate, deleted, known := [], [], [], [], None, [], {};
    }

    method FreeAnnotateEvent()
      modifies this`annotate, this`deleted
      ensures annotate == None && deleted == old(deleted + Abs().Annotated())
    {
      if annotate.Some? {
        deleted := deleted + [annotate.value.id];
        annotate := None;
      } else {
        assert deleted + [] == deleted;
      }
    }

    /** The printing of a rows event, its rows changed in place: into the cache, and with the statement-end
        flag on from there into the event's own output. It fails if the rows cannot be told apart. */
    method PrintRows(e: Event) returns (ok: bool, output: seq<Item>)
      requires e.Rows? && AllLocal(len)
      modifies this`cache
      ensures ok == Legible(len, known, e)
      ensures ok ==> if e.stmtEnd then output == old(cache) + [Printed(len, known, e)] && cache == []
                     else output == [] && cache == old(cache) + [Printed(len, known, e)]
    {
      var data := e.data;
      if e.table in known {
        if Decoded(len(e.table), e.kind, e.data).None? {
          return false, [];
        }
        data := FlipStored(len(e.table), e.kind, e.data);
      }
      cache := cache + [RowsItem(Opposite(e.kind), e.table, data, e.stmtEnd)];
      ok, output := true, [];
      if e.stmtEnd {
        output := cache;
        cache := [];
      }
    }

    /** Print the pending events from the last to the first; the output is that of the first. */
    method PrintPending() returns (ok: bool, output: seq<Item>)
      requires Valid() && pending != []
      modifies this`cache
      ensures ok == AllLegible(len, known, pending)
      ensures ok ==> output == old(cache) + PrintedBack(len, known, pending) && cache == []
    {
      hide Legible, Printed;
      output := [];
      var i := |pending|;
      assert pending[|pending|..] == [];
      while i > 0
        invariant 0 <= i <= |pending| && AllRows(pending[i..])
                  && forall j | i <= j < |pending| :: Legible(len, known, pending[j])
        invariant i > 0 ==> cache == old(cache) + PrintedBack(len, known, pending[i..])
        invariant i == 0 ==> output == old(cache) + PrintedBack(len, known, pending[i..]) && cache == []
      {
        i := i - 1;
        assert pending[i..][1..] == pending[i + 1..];
        ok, output := PrintRows(pending[i]);
        if !ok {
          return;
        }
        assert old(cache) + PrintedBack(len, known, pending[i + 1..]) + [Printed(len, known, pending[i])]
            == old(cache) + PrintedBack(len, known, pending[i..]);
      }
      assert pending[0..] == pending;
      ok := true;
    }

    /** `print_row_event` under flashback without filters. */
    method PrintRowEvent(ev: Event) returns (ok: bool, output: seq<Item>)
      requires Valid() && ev.Rows?
      modifies this`pending, this`cache, this`annotate, this`deleted
      ensures ok == !GivesUp(len, old(Abs()), ev)
      ensures ok ==> Valid()
      ensures ok && !ev.stmtEnd ==>
                && output == [] && pending == old(pending) + [ev.(stmtEnd := old(pending) == [])]
                && cache == old(cache) && annotate == old(annotate) && deleted == old(deleted)
      ensures ok && ev.stmtEnd ==>
                && var all := old(pending) + [ev.(stmtEnd := old(pending) == [])];
                && AllRows(all) && output == old(cache) + PrintedBack(len, known, all)
                && pending == [] && cache == [] && annotate == None
                && deleted == old(deleted) + old(Abs().Annotated()) + Ids(old(pending))
    {
      hide PrintedBack;
      var e := ev;
      if ev.stmtEnd {
        e := e.(stmtEnd := false);
      }
      if |pending| == 0 {
        e := e.(stmtEnd := true);
      }
      pending := pending + [e];
      ok, output := true, [];
      if ev.stmtEnd {
        FreeAnnotateEvent();
        FlagAside(len, known, old(pending), ev, e);
        ok, output := PrintPending();
        if !ok {
          return;
        }
        ghost var before := deleted;
        for i := 0 to |pending| - 1
          invariant pending == old(pending) + [e] && cache == [] && annotate == None
          invariant deleted == before + Ids(pending[..i])
        {
          assert pending[..i + 1] == pending[..i] + [pending[i]];
          deleted := deleted + [pending[i].id];
        }
        assert pending[..|pending| - 1] == old(pending);
        pending := [];
      }
    }

    /** The held outputs from the last to the first. */
    method PrintHeld() returns (output: seq<Item>)
      ensures output == Back(held)
    {
      output := [];
      var i := |held|;
      assert held[|held|..] == [];
      while i > 0
        invariant 0 <= i <= |held| && output == Back(held[i..])
      {
        i := i - 1;
        output := output + held[i];
        assert held[i..][1..] == held[i + 1..];
      }
      assert held[0..] == held;
    }

    /** `process_event` under flashback, for an event that passed the window and no filters. */
    method ProcessEvent(ev: Event) returns (ok: bool)
      requires Valid()
      modifies this
      ensures ok == !GivesUp(len, old(Abs()), ev)
      ensures ok ==> Valid() && Abs() == Step(len, old(Abs()), ev)
    {
      hide AllLegible;
      ok := true;
      var output := [];
      var destroyEvt := true;
      match ev {
        case Annotate(_) =>
          FreeAnnotateEvent();
          annotate := Some(ev);
          destroyEvt := false;
        case TableMap(_, table) =>
          FreeAnnotateEvent();
          cache := cache + [MapItem(table)];
          known := known + {table};
          pending := [];
        case Rows(_, _, _, _, stmtEnd) =>
          ok, output := PrintRowEvent(ev);
          if !ok {
            return;
          }
          if stmtEnd {
            ghost var all := old(pending) + [ev.(stmtEnd := old(pending) == [])];
            assert Ids(all) == Ids(old(pending)) + [ev.id];
          } else {
            destroyEvt := false;
          }
        case Stop(_, text) =>
          output := TextOutput(text);
        case Other(_, text) =>
          output := TextOutput(text);
      }
      if output != [] {
        if ev.Stop? {
          stopEvent := output;
        } else {
          held := held + [output];
        }
      }
      if destroyEvt {
        deleted := deleted + [ev.id];
      }
    }
  }

  /** Which event ends the statement makes no difference to the rows. */
  lemma FlagAside(len: Reader, known: set<nat>, p: seq<Event>, ev: Event, e: Event)
    requires ev.Rows? && e.Rows? && e == ev.(stmtEnd := e.stmtEnd)
    ensures AllLegible(len, known, p + [ev]) <==> AllLegible(len, known, p + [e])
  {
    assert (p + [ev])[|p|] == ev && (p + [e])[|p|] == e;
    assert forall i | 0 <= i < |p| :: (p + [ev])[i] == p[i] == (p + [e])[i];
  }

  /** The whole of a flashback run: every event processed, then the held outputs printed from the last to
      the first, and the output of the stop event after them. It gives up, and prints nothing, exactly if a
      statement ends whose rows cannot be told apart. */
  method Run(len: Reader, log: seq<Event>) returns (ok: bool, output: seq<Item>, deleted: seq<nat>)
    requires AllLocal(len)
    ensures ok <==> forall i | 0 <= i < |log| :: !GivesUp(len, Steps(len, Start(), log[..i]), log[i])
    ensures ok ==> var end := Steps(len, Start(), log);
                   output == Output(end) && deleted == end.deleted + end.Annotated()
    ensures !ok ==> output == []
  {
    hide Step, GivesUp;
    var p := new Processor(len);
    output, deleted := [], [];
    for i := 0 to |log|
      invariant p.len == len && p.Valid() && p.Abs() == Steps(len, Start(), log[..i]) && Start().Valid()
      invariant forall j | 0 <= j < i :: !GivesUp(len, Steps(len, Start(), log[..j]), log[j])
    {
      ok := p.ProcessEvent(log[i]);
      if !ok {
        return;
      }
      assert log[..i + 1][..i] == log[..i];
    }
    assert log[..|log|] == log;
    output := p.PrintHeld();
    output := output + [COMMIT] + p.stopEvent;
    p.FreeAnnotateEvent();
    ok, deleted := true, p.deleted;
  }
}
