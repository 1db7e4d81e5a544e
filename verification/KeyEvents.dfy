/** Key press, repeat and release events of the e-ink reader, and the short and long actions they fire. */
module KeyEvents {

  /** Commands a long press can be mapped to: none, one of those that repeat while the key is held, or another one. */
  datatype Command =
    | NoCommand
    | DCMD_LINEUP | PB_CMD_PAGEUP_REPEAT | PB_CMD_PAGEDOWN_REPEAT | DCMD_LINEDOWN
    | MCMD_SCROLL_FORWARD_LONG | MCMD_SCROLL_BACK_LONG | MCMD_NEXT_ITEM | MCMD_PREV_ITEM
    | MCMD_NEXT_PAGE | MCMD_PREV_PAGE | MCMD_LONG_FORWARD | MCMD_LONG_BACK
    | PB_CMD_LEFT | PB_CMD_RIGHT | PB_CMD_UP | PB_CMD_DOWN
    | OtherCommand(id: nat)

  predicate CommandCanRepeat(command: Command) {
    match command
    case NoCommand => false
    case OtherCommand(_) => false
    case _ => true
  }

  /** Which command the long press of a key is mapped to. */
  type Mapping = int -> Command

  datatype Event = Press(key: int) | Repeat(key: int, count: int) | Release(key: int, count: int)

  datatype Action = Short(key: int) | Long(key: int) | RepeatFinish

  datatype State = State(keyPressed: int, log: seq<Action>)

  const NO_KEY: int := -1

  /** One event; the power key is ignored. */
  function Handle(mapping: Mapping, power: int, s: State, e: Event): State {
    if e.key == power then s
    else
      match e
      case Press(key) =>
        if mapping(key).NoCommand? then State(key, s.log + [Short(key)]) else s.(keyPressed := NO_KEY)
      case Repeat(key, count) =>
        if s.keyPressed == key then s.(keyPressed := NO_KEY)
        else if count == 1 || (count > 1 && CommandCanRepeat(mapping(key))) then State(NO_KEY, s.log + [Long(key)])
        else s.(keyPressed := NO_KEY)
      case Release(key, count) =>
        if s.keyPressed == key then s.(keyPressed := NO_KEY)
        else State(NO_KEY, s.log + [if count == 0 then Short(key) else RepeatFinish])
  }

  function HandleAll(mapping: Mapping, power: int, s: State, events: seq<Event>): State
    decreases |events|
  {
    if events == [] then s
    else HandleAll(mapping, power, Handle(mapping, power, s, events[0]), events[1..])
  }

  /** The event handler: the pressed key, and the actions sent to the window manager so far. */
  class KeyHandler {
    const mapping: Mapping
    const power: int
    var keyPressed: int
    var log: seq<Action>

    constructor (mapping: Mapping, power: int)
      ensures this.mapping == mapping && this.power == power && keyPressed == NO_KEY && log == []
    {
      this.mapping, this.power := mapping, power;
      keyPressed, log := NO_KEY, [];
    }

    method MainHandler(e: Event) returns (ret: int)
      modifies this
      ensures State(keyPressed, log) == Handle(mapping, power, old(State(keyPressed, log)), e)
      ensures ret == if e.key == power || (!e.Press? && old(keyPressed) == e.key) then 0 else 1
    {
      if e.key == power {
        return 0;
      }
      match e {
        case Press(key) =>
          if mapping(key) == NoCommand {
            log := log + [Short(key)];
            keyPressed := key;
          } else {
            keyPressed := NO_KEY;
          }
        case Repeat(key, count) =>
          if keyPressed == key {
            keyPressed := NO_KEY;
            return 0;
          }
          var cmd := mapping(key);
          if count == 1 || (count > 1 && CommandCanRepeat(cmd)) {
            log := log + [Long(key)];
          }
          keyPressed := NO_KEY;
        case Release(key, count) =>
          if keyPressed == key {
            keyPressed := NO_KEY;
            return 0;
          }
          if count == 0 {
            log := log + [Short(key)];
          } else {
            log := log + [RepeatFinish];
          }
          keyPressed := NO_KEY;
      }
      return 1;
    }
  }

  // ---- cycles ----

  /** Repeats number `from` to `m` of a key. */
  function Repeats(key: int, from: nat, m: nat): seq<Event>
    decreases m - from
  {
    if from > m then [] else [Repeat(key, from)] + Repeats(key, from + 1, m)
  }

  /** One cycle: a press, `m` repeats counted from one, and the release, which tells how many there were. */
  function Cycle(key: int, m: nat): seq<Event> {
    [Press(key)] + (Repeats(key, 1, m) + [Release(key, m)])
  }

  function Times(a: Action, n: nat): (r: seq<Action>)
    ensures |r| == n && forall i :: 0 <= i < n ==> r[i] == a
  {
    seq(n, _ => a)
  }

  /** What one cycle must fire. A key without a long mapping: one short action. A key with one: a short action when it
      is not held; otherwise no short action, and one long action, or one for each repeat if its command repeats. A
      held key also reports the end of the repeats. */
  function Fired(mapping: Mapping, key: int, m: nat): seq<Action> {
    var end := if m == 0 then [] else [RepeatFinish];
    if mapping(key).NoCommand? then [Short(key)] + end
    else if m == 0 then [Short(key)]
    else Times(Long(key), if CommandCanRepeat(mapping(key)) then m else 1) + end
  }

  lemma {:induction false} HandleConcat(mapping: Mapping, power: int, s: State, a: seq<Event>, b: seq<Event>)
    ensures HandleAll(mapping, power, s, a + b) == HandleAll(mapping, power, HandleAll(mapping, power, s, a), b)
    decreases |a|
  {
    if a == [] {
      assert a + b == b;
    } else {
      HandleConcat(mapping, power, Handle(mapping, power, s, a[0]), a[1..], b);
      assert (a + b)[1..] == a[1..] + b;
    }
  }

  /** Repeats when no short action is pending: only a repeating command fires after the first one. */
  lemma {:induction false} RepeatsFire(mapping: Mapping, power: int, log: seq<Action>, key: int, from: nat, m: nat)
    requires key != power && key != NO_KEY && from >= 2
    ensures var fired := if CommandCanRepeat(mapping(key)) && from <= m then m - from + 1 else 0;
            HandleAll(mapping, power, State(NO_KEY, log), Repeats(key, from, m))
            == State(NO_KEY, log + Times(Long(key), fired))
    decreases m - from
  {
    if from <= m {
      var repeats := CommandCanRepeat(mapping(key));
      var log' := if repeats then log + [Long(key)] else log;
      var s := State(NO_KEY, log);
      assert Handle(mapping, power, s, Repeat(key, from)) == State(NO_KEY, log');
      assert Repeats(key, from, m)[1..] == Repeats(key, from + 1, m);
      RepeatsFire(mapping, power, log', key, from + 1, m);
      if repeats {
        var rest := if from + 1 <= m then m - from else 0;
        assert [Long(key)] + Times(Long(key), rest) == Times(Long(key), m - from + 1);
        assert log' + Times(Long(key), rest) == log + ([Long(key)] + Times(Long(key), rest));
      }
    } else {
      assert log + Times(Long(key), 0) == log;
    }
  }

  /** What happens between the press and the release. */
  function HeldLog(mapping: Mapping, key: int, m: nat): seq<Action> {
    if m == 0 || mapping(key).NoCommand? then []
    else Times(Long(key), if CommandCanRepeat(mapping(key)) then m else 1)
  }

  lemma HeldFires(mapping: Mapping, power: int, s: State, key: int, m: nat)
    requires key != power && key != NO_KEY && m > 0
    requires s.keyPressed == if mapping(key).NoCommand? then key else NO_KEY
    ensures HandleAll(mapping, power, s, Repeats(key, 1, m)) == State(NO_KEY, s.log + HeldLog(mapping, key, m))
  {
    var t := Handle(mapping, power, s, Repeat(key, 1));
    assert Repeats(key, 1, m)[1..] == Repeats(key, 2, m);
    RepeatsFire(mapping, power, t.log, key, 2, m);
    if mapping(key).NoCommand? {
      assert t.log + Times(Long(key), 0) == s.log + [];
    } else {
      var fired := if CommandCanRepeat(mapping(key)) && 2 <= m then m - 1 else 0;
      assert [Long(key)] + Times(Long(key), fired) == HeldLog(mapping, key, m);
      assert t.log + Times(Long(key), fired) == s.log + ([Long(key)] + Times(Long(key), fired));
    }
  }

  /** One cycle fires what it must, whatever key was pending before, and leaves none pending. */
  lemma CycleFires(mapping: Mapping, power: int, s: State, key: int, m: nat)
    requires key != power && key != NO_KEY
    ensures HandleAll(mapping, power, s, Cycle(key, m)) == State(NO_KEY, s.log + Fired(mapping, key, m))
  {
    var pressed := Handle(mapping, power, s, Press(key));
    assert Cycle(key, m)[1..] == Repeats(key, 1, m) + [Release(key, m)];
    HandleConcat(mapping, power, pressed, Repeats(key, 1, m), [Release(key, m)]);
    var held := HandleAll(mapping, power, pressed, Repeats(key, 1, m));
    assert HandleAll(mapping, power, held, [Release(key, m)]) == Handle(mapping, power, held, Release(key, m)) by {
      OneEvent(mapping, power, held, Release(key, m));
    }
    if m == 0 {
      assert Repeats(key, 1, 0) == [];
    } else {
      HeldFires(mapping, power, pressed, key, m);
      Regroup(s.log, if mapping(key).NoCommand? then [Short(key)] else [], HeldLog(mapping, key, m), [RepeatFinish]);
    }
  }

  lemma OneEvent(mapping: Mapping, power: int, s: State, e: Event)
    ensures HandleAll(mapping, power, s, [e]) == Handle(mapping, power, s, e)
  {
    assert [e][1..] == [];
    assert HandleAll(mapping, power, Handle(mapping, power, s, e), []) == Handle(mapping, power, s, e);
  }

  lemma Regroup(a: seq<Action>, b: seq<Action>, c: seq<Action>, d: seq<Action>)
    ensures (a + b) + c + d == a + (b + c + d)
  {
  }

  // ---- runs of cycles ----

  function Cycles(runs: seq<(int, nat)>): seq<Event> {
    if runs == [] then [] else Cycle(runs[0].0, runs[0].1) + Cycles(runs[1..])
  }

  function FiredAll(mapping: Mapping, runs: seq<(int, nat)>): seq<Action> {
    if runs == [] then [] else Fired(mapping, runs[0].0, runs[0].1) + FiredAll(mapping, runs[1..])
  }

  /** Main result: any sequence of cycles that do not overlap fires, cycle by cycle, exactly what each of them must, and no
      key is pending in the end. */
  lemma {:induction false} RunFires(mapping: Mapping, power: int, s: State, runs: seq<(int, nat)>)
    requires s.keyPressed == NO_KEY
    requires forall i :: 0 <= i < |runs| ==> runs[i].0 != power && runs[i].0 != NO_KEY
    ensures HandleAll(mapping, power, s, Cycles(runs)) == State(NO_KEY, s.log + FiredAll(mapping, runs))
    decreases |runs|
  {
    if runs == [] {
      assert s.log + [] == s.log;
    } else {
      var key, m := runs[0].0, runs[0].1;
      HandleConcat(mapping, power, s, Cycle(key, m), Cycles(runs[1..]));
      CycleFires(mapping, power, s, key, m);
      RunFires(mapping, power, State(NO_KEY, s.log + Fired(mapping, key, m)), runs[1..]);
      assert s.log + Fired(mapping, key, m) + FiredAll(mapping, runs[1..])
          == s.log + (Fired(mapping, key, m) + FiredAll(mapping, runs[1..]));
    }
  }

  // ---- the power key, and the commands that repeat ----

  function WithoutKey(events: seq<Event>, key: int): seq<Event> {
    if events == [] then []
    else (if events[0].key == key then [] else [events[0]]) + WithoutKey(events[1..], key)
  }

  /** Events of the power key fire nothing and change nothing, wherever they stand. */
  lemma {:induction false} PowerIgnored(mapping: Mapping, power: int, s: State, events: seq<Event>)
    ensures HandleAll(mapping, power, s, events) == HandleAll(mapping, power, s, WithoutKey(events, power))
    decreases |events|
  {
    if events != [] {
      var e := events[0];
      PowerIgnored(mapping, power, Handle(mapping, power, s, e), events[1..]);
      if e.key == power {
        assert Handle(mapping, power, s, e) == s;
        assert [] + WithoutKey(events[1..], power) == WithoutKey(events[1..], power);
      } else {
        assert ([e] + WithoutKey(events[1..], power))[1..] == WithoutKey(events[1..], power);
      }
    }
  }

  /** On the log: held over `m` repeats, a key whose long press is mapped to one of these sixteen commands fires `m` long
      actions, and with any other command one. */
  lemma HeldKeyFires(mapping: Mapping, power: int, s: State, key: int, m: nat)
    requires key != power && key != NO_KEY && m > 0 && mapping(key) != NoCommand
    ensures var longs := if mapping(key).OtherCommand? then 1 else m;
            HandleAll(mapping, power, s, Cycle(key, m)).log == s.log + Times(Long(key), longs) + [RepeatFinish]
    ensures !mapping(key).OtherCommand? <==>
              mapping(key) in [DCMD_LINEUP, PB_CMD_PAGEUP_REPEAT, PB_CMD_PAGEDOWN_REPEAT, DCMD_LINEDOWN,
                               MCMD_SCROLL_FORWARD_LONG, MCMD_SCROLL_BACK_LONG, MCMD_NEXT_ITEM, MCMD_PREV_ITEM,
                               MCMD_NEXT_PAGE, MCMD_PREV_PAGE, MCMD_LONG_FORWARD, MCMD_LONG_BACK,
                               PB_CMD_LEFT, PB_CMD_RIGHT, PB_CMD_UP, PB_CMD_DOWN]
  {
    CycleFires(mapping, power, s, key, m);
    var longs := Times(Long(key), if mapping(key).OtherCommand? then 1 else m);
    assert s.log + (longs + [RepeatFinish]) == s.log + longs + [RepeatFinish];
  }

  // ---- overlapping keys ----

  /** Some event is not the power key's. */
  predicate Disturbed(power: int, events: seq<Event>) {
    exists i :: 0 <= i < |events| && events[i].key != power
  }

  /** As long as a key is not pressed anew, it is pending after some events exactly when it was before and all of them are
      the power key's. */
  lemma {:induction false} StaysPending(mapping: Mapping, power: int, s: State, a: int, events: seq<Event>)
    requires a != power && a != NO_KEY && Press(a) !in events
    ensures HandleAll(mapping, power, s, events).keyPressed == a <==> s.keyPressed == a && !Disturbed(power, events)
    decreases |events|
  {
    if events != [] {
      StaysPending(mapping, power, Handle(mapping, power, s, events[0]), a, events[1..]);
      DisturbedStep(power, events);
    }
  }

  lemma DisturbedStep(power: int, events: seq<Event>)
    requires events != []
    ensures Disturbed(power, events) <==> events[0].key != power || Disturbed(power, events[1..])
  {
    if events[0].key != power {
    } else if Disturbed(power, events) {
      var i :| 0 <= i < |events| && events[i].key != power;
      assert events[1..][i - 1].key != power;
    }
  }

  /** What a repeat or the release of a key without a long mapping fires when it is not taken for part of the press. */
  function FiredLate(e: Event): seq<Action>
    requires !e.Press?
  {
    match e
    case Repeat(key, count) => if count == 1 then [Long(key)] else []
    case Release(key, count) => if count == 0 then [Short(key)] else [RepeatFinish]
  }

  /** The exact condition for a second action: a key without a long mapping has fired its short action when it went down;
      a later repeat or the release of it fires something more if and only if some event since then, of any key but the
      power key, came in between. */
  lemma SecondActionExactly(mapping: Mapping, power: int, s: State, a: int, mid: seq<Event>, e: Event)
    requires a != power && a != NO_KEY && mapping(a).NoCommand?
    requires Press(a) !in mid && e.key == a && !e.Press?
    ensures Handle(mapping, power, s, Press(a)).log == s.log + [Short(a)]
    ensures var held := HandleAll(mapping, power, s, [Press(a)] + mid);
            Handle(mapping, power, held, e) == State(NO_KEY, held.log + if Disturbed(power, mid) then FiredLate(e) else [])
  {
    var pressed := Handle(mapping, power, s, Press(a));
    assert ([Press(a)] + mid)[1..] == mid;
    StaysPending(mapping, power, pressed, a, mid);
    var held := HandleAll(mapping, power, pressed, mid);
    assert held.log + [] == held.log;
  }

  /** For instance: a second key goes down before the first one is released, or repeats. The first one then fires its short
      action twice, or a long action that it has no mapping for. */
  lemma OverlapFiresTwice(mapping: Mapping, power: int, a: int, b: int)
    requires a != b && a != power && b != power && a != NO_KEY && b != NO_KEY
    requires mapping(a).NoCommand? && mapping(b).NoCommand?
    ensures HandleAll(mapping, power, State(NO_KEY, []), [Press(a), Press(b), Release(a, 0)]).log
            == [Short(a), Short(b), Short(a)]
    ensures HandleAll(mapping, power, State(NO_KEY, []), [Press(a), Press(b), Repeat(a, 1)]).log
            == [Short(a), Short(b), Long(a)]
  {
    AfterOther(mapping, power, a, b, Release(a, 0));
    AfterOther(mapping, power, a, b, Repeat(a, 1));
  }

  lemma AfterOther(mapping: Mapping, power: int, a: int, b: int, e: Event)
    requires a != b && a != power && b != power && a != NO_KEY && b != NO_KEY
    requires mapping(a).NoCommand? && mapping(b).NoCommand? && e.key == a && !e.Press?
    ensures HandleAll(mapping, power, State(NO_KEY, []), [Press(a), Press(b), e]).log
            == [Short(a), Short(b)] + FiredLate(e)
  {
    var start, mid := State(NO_KEY, []), [Press(b)];
    SecondActionExactly(mapping, power, start, a, mid, e);
    assert mid[0].key != power;
    HandleConcat(mapping, power, start, [Press(a)] + mid, [e]);
    OneEvent(mapping, power, HandleAll(mapping, power, start, [Press(a)] + mid), e);
    HandleConcat(mapping, power, start, [Press(a)], mid);
    OneEvent(mapping, power, start, Press(a));
    OneEvent(mapping, power, Handle(mapping, power, start, Press(a)), Press(b));
    assert [Press(a)] + mid + [e] == [Press(a), Press(b), e];
    assert [] + [Short(a)] + [Short(b)] == [Short(a), Short(b)];
  }
}
