/** Which events of the given logs mysqlbinlog prints: the window of `process_event` set by --offset,
    --start-datetime, --stop-datetime, --stop-position and --server-id (client/mysqlbinlog.cc). */
module EventWindow {
  datatype Kind = FormatDescription | Rotate | Ordinary

  /** `pos` is the event's offset in its log, and `lastLog` tells the last log given, the only one that
      --stop-position applies to. */
  datatype Event = Event(kind: Kind, when: nat, serverId: nat, pos: nat, lastLog: bool)

  datatype Options = Options(offset: nat, startDatetime: nat, stopDatetime: nat, stopPosition: nat, serverId: nat)

  datatype Verdict = Skip | Print | End

  // ----- the window, event by event -----

  /** An event at which the window opens, if no earlier one opened it. */
  predicate Opens(o: Options, events: seq<Event>, i: nat)
    requires i < |events|
  {
    !events[i].kind.FormatDescription? && i >= o.offset && events[i].when >= o.startDatetime
  }

  ghost predicate Opened(o: Options, events: seq<Event>, i: nat)
    requires i < |events|
  {
    exists j | 0 <= j <= i :: Opens(o, events, j)
  }

  /** Format descriptions are always admitted; other events once the window is open, unless they come
      from another server, and rotations even then. */
  ghost predicate Admitted(o: Options, events: seq<Event>, i: nat)
    requires i < |events|
  {
    var ev := events[i];
    ev.kind.FormatDescription?
    || (Opened(o, events, i) && (ev.kind.Rotate? || o.serverId == 0 || o.serverId == ev.serverId))
  }

  ghost predicate Closes(o: Options, events: seq<Event>, i: nat)
    requires i < |events|
  {
    var ev := events[i];
    Admitted(o, events, i) && (ev.when >= o.stopDatetime || (ev.lastLog && ev.pos >= o.stopPosition))
  }

  ghost predicate Shown(o: Options, events: seq<Event>, i: nat)
    requires i < |events|
  {
    Admitted(o, events, i) && forall j | 0 <= j <= i :: !Closes(o, events, j)
  }

  // ----- the counters -----

  class Window {
    const options: Options
    var recCount: nat
    var offset: nat
    var startDatetime: nat

    constructor (o: Options)
      ensures options == o && recCount == 0 && offset == o.offset && startDatetime == o.startDatetime
    {
      options, recCount, offset, startDatetime := o, 0, o.offset, o.startDatetime;
    }

    /** The counters after `n` events. */
    ghost predicate After(events: seq<Event>, n: nat)
      reads this
    {
      && recCount == n <= |events|
      && (if exists j | 0 <= j < n :: Opens(options, events, j) then offset == 0 && startDatetime == 0
          else offset == options.offset && startDatetime == options.startDatetime)
    }

    /** `process_event` up to the printing of the event. */
    method Decide(ev: Event, ghost events: seq<Event>) returns (v: Verdict)
      requires After(events, recCount) && recCount < |events| && events[recCount] == ev
      modifies this`recCount, this`offset, this`startDatetime
      ensures After(events, old(recCount) + 1)
      ensures v.End? <==> Closes(options, events, old(recCount))
      ensures v.Print? <==> Admitted(options, events, old(recCount)) && !Closes(options, events, old(recCount))
    {
      var n := recCount;
      ghost var already := exists j | 0 <= j < n :: Opens(options, events, j);
      assert Opened(options, events, n) <==> already || Opens(options, events, n);
      recCount := recCount + 1;
      v := Skip;
      if (n >= offset && ev.when >= startDatetime) || ev.kind.FormatDescription? {
        if !ev.kind.FormatDescription? {
          startDatetime := 0;
          offset := 0;
          if !ev.kind.Rotate? && options.serverId != 0 && options.serverId != ev.serverId {
            return;
          }
        }
        if ev.when >= options.stopDatetime || (ev.lastLog && ev.pos >= options.stopPosition) {
          return End;
        }
        v := Print;
      }
    }
  }

  /** All logs, event after event. What is printed is exactly what the window shows, in log order. */
  method Dump(o: Options, events: seq<Event>) returns (printed: seq<nat>, stopped: bool)
    ensures forall i | 0 <= i < |printed| :: printed[i] < |events|
    ensures forall i, j | 0 <= i < j < |printed| :: printed[i] < printed[j]
    ensures forall k | 0 <= k < |events| :: k in printed <==> Shown(o, events, k)
    ensures stopped <==> exists k | 0 <= k < |events| :: Closes(o, events, k)
  {
    var w := new Window(o);
    printed, stopped := [], false;
    while w.recCount < |events|
      invariant w.options == o && w.After(events, w.recCount)
      invariant forall i | 0 <= i < |printed| :: printed[i] < w.recCount
      invariant forall i, j | 0 <= i < j < |printed| :: printed[i] < printed[j]
      invariant forall k | 0 <= k < w.recCount :: k in printed <==> Shown(o, events, k)
      invariant forall k | 0 <= k < w.recCount :: !Closes(o, events, k)
    {
      var n := w.recCount;
      var v := w.Decide(events[n], events);
      if v.End? {
        return printed, true;
      }
      if v.Print? {
        printed := printed + [n];
      }
    }
  }

  // ----- the window as a range -----

  /** The printed events other than format descriptions lie between the event that opens the window and
      the one that closes it, and of those in between only events of other servers are left out. */
  lemma WindowIsARange(o: Options, events: seq<Event>, i: nat, k: nat, j: nat)
    requires i <= k <= j < |events| && !events[k].kind.FormatDescription?
    requires Shown(o, events, i) && !events[i].kind.FormatDescription? && Shown(o, events, j)
    ensures Shown(o, events, k) <==> (events[k].kind.Rotate? || o.serverId == 0 || o.serverId == events[k].serverId)
  {
    var first :| 0 <= first <= i && Opens(o, events, first);
    assert Opened(o, events, k);
  }
}
