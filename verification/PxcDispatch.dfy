/** handleEvent of hud/net/pxc.go: which command is answered with what, and why two peers running it on
    each other always fall silent. Bodies are opaque; what parsing one would give comes in as data, and so
    does whether each write goes through. */
module PxcDispatch {
  import opened Bytes

  const PXC_HANDSHAKE: u32 := 65536
  const PXC_HUD_CONF: u32 := 65552
  const PXC_SPEED_CONF: u32 := 67216
  const PXC_HEARTBEAT: u32 := 1879048192
  const PXC_CLIENT_SET: u32 := 66528
  const PXC_CHANNEL_CAR_DATA: u32 := 0x20000
  const PXC_CHECK_SN_RESULT: u32 := 0x201c0
  const PXC_HU_TIME_SYNC: u32 := 0x10600
  const PXC_QUERY_TIME: u32 := 0x10450
  const PXC_CHECK_APP_NETWORKING: u32 := 0x10750
  const PXC_APP_STATUS: u32 := 0x20030

  const APP_STATUS_MIRROR_LIVE := 1
  const APP_STATUS_BACKGROUND := 2

  /** Below this, currentHUTime is time since boot and not a clock. */
  const HU_TIME_UPTIME_CEILING := 100_000_000_000

  /** What a HUD_CONFIG body says, as far as it matters here. */
  datatype HudConf = HudConf(currentHUTime: nat)

  datatype Config = Config(
    skipDashClockSync: bool, dashAsksForTime: bool, appStatusEnabled: bool, appStatusLiveOnly: bool)

  datatype Session = Session(
    hudConfig: Option<HudConf>, queryTimeAnswered: bool, graceTimerStarted: bool, sentModes: set<int>)

  /** A received frame: its command, what its body parses to as HUD_CONFIG, and whether the phone
      configuration can be built from that. */
  datatype Incoming = Incoming(command: u32, hud: Option<HudConf>, buildOk: bool)

  // ---------- the decision, as a function ----------

  predicate MayPushTime(config: Config, hud: Option<HudConf>) {
    && !config.skipDashClockSync && !config.dashAsksForTime
    && hud.Some? && hud.value.currentHUTime < HU_TIME_UPTIME_CEILING
  }

  predicate ClaimsStatus(config: Config, sentModes: set<int>, mode: int) {
    && config.appStatusEnabled && (!config.appStatusLiveOnly || mode == APP_STATUS_MIRROR_LIVE)
    && mode !in sentModes
  }

  function WrittenIf(command: u32, ok: bool): seq<u32> {
    if ok then [command] else []
  }

  /** The first HUD_CONFIG that parses: store it, answer with the phone configuration, start the grace
      timer if the dash's clock looks unset, and say once that nothing is mirrored yet. */
  function HandleHudConf(config: Config, s: Session, e: Incoming, ok: nat -> bool, control: bool):
    (Session, seq<u32>)
  {
    if s.hudConfig.Some? || e.hud.None? then (s, [])
    else
      var stored := s.(hudConfig := e.hud);
      if !e.buildOk || !ok(0) then (stored, [])
      else
        var timed := stored.(graceTimerStarted := s.graceTimerStarted || MayPushTime(config, e.hud));
        if ClaimsStatus(config, s.sentModes, APP_STATUS_BACKGROUND) then
          (timed.(sentModes := s.sentModes + {APP_STATUS_BACKGROUND}),
           [PXC_HUD_CONF + 1] + WrittenIf(PXC_APP_STATUS, control && ok(1)))
        else (timed, [PXC_HUD_CONF + 1])
  }

  /** What reaches the wire for one event. ok(k) is the fate of the k-th write; control says whether there
      is an open connection for unsolicited commands. */
  function Handle(config: Config, s: Session, e: Incoming, ok: nat -> bool, control: bool): (Session, seq<u32>) {
    if e.command % 2 == 1 then (s, [])
    else if e.command == PXC_HUD_CONF then HandleHudConf(config, s, e, ok, control)
    else if e.command == PXC_CLIENT_SET then
      (s, if ok(0) then [PXC_CLIENT_SET + 1] + WrittenIf(PXC_CHECK_SN_RESULT, ok(1)) else [])
    else
      (if e.command == PXC_QUERY_TIME then s.(queryTimeAnswered := true) else s,
       WrittenIf(e.command + 1, ok(0)))
  }

  // ---------- the code ----------

  class PxcControl {
    const config: Config
    var hudConfig: Option<HudConf>
    var queryTimeAnswered: bool
    var graceTimerStarted: bool
    var sentModes: set<int>

    constructor (config: Config)
      ensures this.config == config && State() == Session(None, false, false, {})
    {
      this.config := config;
      hudConfig, queryTimeAnswered, graceTimerStarted, sentModes := None, false, false, {};
    }

    function State(): Session
      reads this
    {
      Session(hudConfig, queryTimeAnswered, graceTimerStarted, sentModes)
    }

    method NoteQueryTimeAnswered()
      modifies this`queryTimeAnswered
      ensures queryTimeAnswered
    {
      queryTimeAnswered := true;
    }

    /** The grace timer's test-and-set: it may push the time only if no question has been noted. */
    method ClaimUnsolicited() returns (claimed: bool)
      modifies this`queryTimeAnswered
      ensures queryTimeAnswered && claimed == !old(queryTimeAnswered)
    {
      var already := queryTimeAnswered;
      if !already {
        queryTimeAnswered := true;
      }
      return !already;
    }

    method MaybeScheduleProactiveQueryTime()
      modifies this`graceTimerStarted
      ensures graceTimerStarted == (old(graceTimerStarted) || MayPushTime(config, hudConfig))
    {
      if config.skipDashClockSync {
        return;
      }
      if config.dashAsksForTime {
        return;
      }
      if hudConfig.None? || hudConfig.value.currentHUTime >= HU_TIME_UPTIME_CEILING {
        return;
      }
      graceTimerStarted := true;
    }

    /** The claim is made before anything is written, so a write that fails has still used it up. */
    method SendAppStatus(mode: int, control: bool, ok: bool) returns (out: seq<u32>)
      modifies this`sentModes
      ensures sentModes ==
        if ClaimsStatus(config, old(sentModes), mode) then old(sentModes) + {mode} else old(sentModes)
      ensures out == WrittenIf(PXC_APP_STATUS, ClaimsStatus(config, old(sentModes), mode) && control && ok)
    {
      var enabled := config.appStatusEnabled && (!config.appStatusLiveOnly || mode == APP_STATUS_MIRROR_LIVE);
      var already := mode in sentModes;
      if enabled && !already {
        sentModes := sentModes + {mode};
      }
      if !enabled || already || !control || !ok {
        return [];
      }
      return [PXC_APP_STATUS];
    }

    method HandleEvent(e: Incoming, ok: nat -> bool, control: bool) returns (out: seq<u32>)
      modifies this
      ensures (State(), out) == Handle(config, old(State()), e, ok, control)
    {
      out := [];
      var c := e.command;
      if c == PXC_HUD_CONF {
        if hudConfig.Some? || e.hud.None? {
          return;
        }
        hudConfig := e.hud;
        if !e.buildOk || !ok(0) {
          return;
        }
        out := [PXC_HUD_CONF + 1];
        MaybeScheduleProactiveQueryTime();
        var status := SendAppStatus(APP_STATUS_BACKGROUND, control, ok(1));
        assert status == [] ==> out + status == out;
        out := out + status;
      } else if c == PXC_CLIENT_SET {
        if !ok(0) {
          return;
        }
        out := [PXC_CLIENT_SET + 1];
        assert out + [] == out;
        if ok(1) {
          out := out + [PXC_CHECK_SN_RESULT];
        }
      } else if c == PXC_QUERY_TIME {
        NoteQueryTimeAnswered();
        if ok(0) {
          out := [PXC_QUERY_TIME + 1];
        }
      } else if c == PXC_CHECK_SN_RESULT + 1 {
        // the dash's own acknowledgement
      } else if c == PXC_HANDSHAKE || c == PXC_CHANNEL_CAR_DATA || c == PXC_SPEED_CONF || c == PXC_HEARTBEAT
             || c == PXC_CHECK_APP_NETWORKING || c == PXC_HU_TIME_SYNC {
        if ok(0) {
          out := [c + 1];
        }
      } else if c % 2 == 0 {
        if ok(0) {
          out := [c + 1];
        }
      }
    }
  }

  // ---------- no acknowledgement loop ----------

  /** What a message in flight can still cause. */
  function Weight(command: u32): nat {
    if command % 2 == 1 then 1
    else if command == PXC_CLIENT_SET || command == PXC_HUD_CONF then 4
    else 2
  }

  function TotalWeight(commands: seq<u32>): nat {
    if commands == [] then 0 else Weight(commands[0]) + TotalWeight(commands[1..])
  }

  lemma {:induction false} TotalWeightAdds(a: seq<u32>, b: seq<u32>)
    ensures TotalWeight(a + b) == TotalWeight(a) + TotalWeight(b)
  {
    if a == [] {
      assert a + b == b;
    } else {
      TotalWeightAdds(a[1..], b);
      assert (a + b)[1..] == a[1..] + b;
    }
  }

  /** The session can answer this HUD_CONFIG: the first one that parses to something usable. */
  predicate Usable(s: Session, e: Incoming) {
    s.hudConfig.None? && e.hud.Some? && e.buildOk
  }

  /** Whatever the session has been through: an odd command is never answered; an even one is, by itself plus
      one and first, whenever the write goes through - HUD_CONFIG only once; what comes behind that are
      requests of the phone's own; and the answers together weigh less than the question. */
  lemma AnswersWeighLess(config: Config, s: Session, e: Incoming, ok: nat -> bool, control: bool)
    ensures var out := Handle(config, s, e, ok, control).1;
      && (e.command % 2 == 1 ==> out == [] && Handle(config, s, e, ok, control).0 == s)
      && (out != [] <==>
            e.command % 2 == 0 && ok(0) && (e.command == PXC_HUD_CONF ==> Usable(s, e)))
      && (out != [] ==> out[0] == e.command + 1)
      && (|out| > 1 ==> e.command == PXC_CLIENT_SET || e.command == PXC_HUD_CONF)
      && (e.command == PXC_CLIENT_SET && ok(0) ==>
            out == if ok(1) then [PXC_CLIENT_SET + 1, PXC_CHECK_SN_RESULT] else [PXC_CLIENT_SET + 1])
      && (forall k :: 0 < k < |out| ==> out[k] % 2 == 0 && Weight(out[k]) == 2)
      && TotalWeight(out) < Weight(e.command)
  {
    var out := Handle(config, s, e, ok, control).1;
    if |out| == 1 {
      WeightOfOne(out[0]);
    } else if |out| == 2 {
      WeightOfOne(out[0]);
      WeightOfOne(out[1]);
      assert out == [out[0]] + [out[1]];
      TotalWeightAdds([out[0]], [out[1]]);
    }
  }

  lemma WeightOfOne(command: u32)
    ensures TotalWeight([command]) == Weight(command)
  {
    assert [command][1..] == [];
  }

  /** The phone configuration goes out. */
  predicate Configures(s: Session, e: Incoming, ok: nat -> bool) {
    e.command == PXC_HUD_CONF && Usable(s, e) && ok(0)
  }

  /** The dash's clock reads as time since boot, it is not known to ask, and pushing the time is not off. */
  predicate WantsTime(config: Config, hud: Option<HudConf>) {
    hud.Some? && hud.value.currentHUTime < 100_000_000_000 && !config.skipDashClockSync && !config.dashAsksForTime
  }

  predicate SaysBackground(config: Config) {
    config.appStatusEnabled && !config.appStatusLiveOnly
  }

  /** What an event does to the session, exactly: the first HUD_CONFIG that parses is kept for good, a question
      about the time is noted, the grace timer starts when the phone configuration has gone out to a dash that
      wants the time, and the background mode - no other - is claimed then, unless only the live mode is spoken
      of, and written, if a connection is open, when it was not claimed before. */
  lemma SessionEffects(config: Config, s: Session, e: Incoming, ok: nat -> bool, control: bool)
    ensures var (s', out) := Handle(config, s, e, ok, control);
      && s'.hudConfig == (if s.hudConfig.None? && e.command == PXC_HUD_CONF then e.hud else s.hudConfig)
      && (s'.queryTimeAnswered <==> s.queryTimeAnswered || e.command == PXC_QUERY_TIME)
      && (s'.graceTimerStarted <==> s.graceTimerStarted || (Configures(s, e, ok) && WantsTime(config, e.hud)))
      && s'.sentModes == s.sentModes + (if Configures(s, e, ok) && SaysBackground(config) then {2} else {})
      && (0x20030 in out <==>
            Configures(s, e, ok) && SaysBackground(config) && 2 !in s.sentModes && control && ok(1))
  {
  }

  /** One event on its way through the dispatch, and what the dispatch finds. */
  datatype Event = Event(e: Incoming, ok: nat -> bool, control: bool)

  /** A session handling one event after the other: where it ends, and everything it writes. */
  function Serve(config: Config, s: Session, events: seq<Event>): (Session, seq<u32>)
    decreases |events|
  {
    if events == [] then (s, [])
    else
      var now := Handle(config, s, events[0].e, events[0].ok, events[0].control);
      var later := Serve(config, now.0, events[1..]);
      (later.0, now.1 + later.1)
  }

  /** The first HUD_CONFIG of a run that parses. */
  function FirstParsed(events: seq<Event>): (r: Option<Event>)
    ensures r.Some? ==> r.value.e.command == PXC_HUD_CONF && r.value.e.hud.Some?
  {
    if events == [] then None
    else if events[0].e.command == PXC_HUD_CONF && events[0].e.hud.Some? then Some(events[0])
    else FirstParsed(events[1..])
  }

  /** The event that configures the session, its phone configuration going out. */
  function Configuring(s: Session, events: seq<Event>): (r: Option<Event>)
    ensures r.Some? ==> r.value.e.hud.Some?
  {
    var first := FirstParsed(events);
    if s.hudConfig.None? && first.Some? && first.value.e.buildOk && first.value.ok(0) then first else None
  }

  predicate AsksTime(events: seq<Event>) {
    exists k :: 0 <= k < |events| && events[k].e.command == PXC_QUERY_TIME
  }

  /** Over any number of events, whatever they are and whichever writes fail: the session is configured by the
      first HUD_CONFIG that parses and no other, has noted a question exactly if there was one, and has started
      the timer exactly if the configuring event asked for it. */
  lemma {:induction false} SessionOfARun(config: Config, s: Session, events: seq<Event>)
    ensures var s', first, conf := Serve(config, s, events).0, FirstParsed(events), Configuring(s, events);
      && s'.hudConfig == (if s.hudConfig.None? && first.Some? then first.value.e.hud else s.hudConfig)
      && (s'.queryTimeAnswered <==> s.queryTimeAnswered || AsksTime(events))
      && (s'.graceTimerStarted <==>
            s.graceTimerStarted || (conf.Some? && WantsTime(config, conf.value.e.hud)))
      && s'.sentModes == s.sentModes + (if conf.Some? && SaysBackground(config) then {2} else {})
    decreases |events|
  {
    if events != [] {
      var now := Handle(config, s, events[0].e, events[0].ok, events[0].control);
      SessionEffects(config, s, events[0].e, events[0].ok, events[0].control);
      SessionOfARun(config, now.0, events[1..]);
      FirstOrLater(events);
    }
  }

  /** ... and it writes the phone configuration once, if something configures it, and the app status behind that
      once, if the mode was free and a connection open. */
  lemma {:induction false} WritesOfARun(config: Config, s: Session, events: seq<Event>)
    ensures var out, conf := multiset(Serve(config, s, events).1), Configuring(s, events);
      && out[PXC_HUD_CONF + 1] == (if conf.Some? then 1 else 0)
      && out[PXC_APP_STATUS] == (if conf.Some? && WritesBackground(config, s, conf.value) then 1 else 0)
    decreases |events|
  {
    if events != [] {
      var now := Handle(config, s, events[0].e, events[0].ok, events[0].control);
      WrittenOnce(config, s, events[0]);
      SessionEffects(config, s, events[0].e, events[0].ok, events[0].control);
      WritesOfARun(config, now.0, events[1..]);
      Both(now.1, Serve(config, now.0, events[1..]).1);
    }
  }

  predicate WritesBackground(config: Config, s: Session, v: Event) {
    SaysBackground(config) && 2 !in s.sentModes && v.control && v.ok(1)
  }

  lemma Both(a: seq<u32>, b: seq<u32>)
    ensures multiset(a + b) == multiset(a) + multiset(b)
  {
  }

  lemma FirstOrLater(events: seq<Event>)
    requires events != []
    ensures AsksTime(events) <==> events[0].e.command == PXC_QUERY_TIME || AsksTime(events[1..])
  {
    if AsksTime(events[1..]) {
      var k :| 0 <= k < |events[1..]| && events[1..][k].e.command == PXC_QUERY_TIME;
      assert events[k + 1].e.command == PXC_QUERY_TIME;
    }
    if k :| 0 <= k < |events| && events[k].e.command == PXC_QUERY_TIME {
      assert k > 0 ==> events[1..][k - 1].e.command == PXC_QUERY_TIME;
    }
  }

  /** Among the answers to one event. */
  lemma WrittenOnce(config: Config, s: Session, v: Event)
    ensures var out := multiset(Handle(config, s, v.e, v.ok, v.control).1);
      && out[PXC_HUD_CONF + 1] == (if Configures(s, v.e, v.ok) then 1 else 0)
      && out[PXC_APP_STATUS] == (if Configures(s, v.e, v.ok) && WritesBackground(config, s, v) then 1 else 0)
  {
    var out := Handle(config, s, v.e, v.ok, v.control).1;
    if |out| == 2 {
      assert out == [out[0], out[1]];
    } else if |out| == 1 {
      assert out == [out[0]];
    }
  }

  /** A message on its way to the first or the second peer. */
  datatype Flight = Flight(toFirst: bool, command: u32)

  datatype Net = Net(first: Session, second: Session, flights: seq<Flight>)

  /** Delivering the i-th message in flight - any of them, so every order and every interleaving - with
      whatever its body parses to and whichever writes fail. */
  datatype Deliver = Deliver(i: nat, hud: Option<HudConf>, buildOk: bool, ok: nat -> bool, control: bool)

  function Commands(flights: seq<Flight>): (r: seq<u32>)
    ensures |r| == |flights|
  {
    seq(|flights|, k requires 0 <= k < |flights| => flights[k].command)
  }

  function Sent(toFirst: bool, commands: seq<u32>): (r: seq<Flight>)
    ensures |r| == |commands|
  {
    seq(|commands|, k requires 0 <= k < |commands| => Flight(toFirst, commands[k]))
  }

  function Delivered(c1: Config, c2: Config, n: Net, d: Deliver): Net
    requires d.i < |n.flights|
  {
    var f := n.flights[d.i];
    var others := n.flights[..d.i] + n.flights[d.i + 1..];
    var e := Incoming(f.command, d.hud, d.buildOk);
    if f.toFirst then
      var r := Handle(c1, n.first, e, d.ok, d.control);
      n.(first := r.0, flights := others + Sent(false, r.1))
    else
      var r := Handle(c2, n.second, e, d.ok, d.control);
      n.(second := r.0, flights := others + Sent(true, r.1))
  }

  function Energy(n: Net): nat {
    TotalWeight(Commands(n.flights))
  }

  lemma DeliveryLosesEnergy(c1: Config, c2: Config, n: Net, d: Deliver)
    requires d.i < |n.flights|
    ensures Energy(Delivered(c1, c2, n, d)) < Energy(n)
  {
    var f := n.flights[d.i];
    var e := Incoming(f.command, d.hud, d.buildOk);
    var out := if f.toFirst then Handle(c1, n.first, e, d.ok, d.control).1
               else Handle(c2, n.second, e, d.ok, d.control).1;
    if f.toFirst {
      AnswersWeighLess(c1, n.first, e, d.ok, d.control);
    } else {
      AnswersWeighLess(c2, n.second, e, d.ok, d.control);
    }
    CommandsSplit(n.flights, d.i, out, !f.toFirst);
    WeightReplaced(Commands(n.flights[..d.i]), f.command, Commands(n.flights[d.i + 1..]), out);
  }

  lemma CommandsSplit(flights: seq<Flight>, i: nat, out: seq<u32>, toFirst: bool)
    requires i < |flights|
    ensures Commands(flights) == Commands(flights[..i]) + [flights[i].command] + Commands(flights[i + 1..])
    ensures Commands(flights[..i] + flights[i + 1..] + Sent(toFirst, out)) ==
            Commands(flights[..i]) + Commands(flights[i + 1..]) + out
  {
  }

  lemma WeightReplaced(before: seq<u32>, command: u32, after: seq<u32>, out: seq<u32>)
    ensures TotalWeight(before + after + out) + Weight(command) ==
            TotalWeight(before + [command] + after) + TotalWeight(out)
  {
    TotalWeightAdds(before + after, out);
    TotalWeightAdds(before, after);
    TotalWeightAdds(before + [command], after);
    TotalWeightAdds(before, [command]);
    WeightOfOne(command);
  }

  ghost predicate ValidRun(c1: Config, c2: Config, n: Net, run: seq<Deliver>)
    decreases |run|
  {
    run == [] || (run[0].i < |n.flights| && ValidRun(c1, c2, Delivered(c1, c2, n, run[0]), run[1..]))
  }

  ghost function After(c1: Config, c2: Config, n: Net, run: seq<Deliver>): Net
    requires ValidRun(c1, c2, n, run)
    decreases |run|
  {
    if run == [] then n else After(c1, c2, Delivered(c1, c2, n, run[0]), run[1..])
  }

  /** Two peers with the timers off, any settings, any sessions, any finite set of messages in flight: every
      run ends after at most their total weight of deliveries, and it can only end in silence. */
  lemma {:induction false} PeersFallSilent(c1: Config, c2: Config, n: Net, run: seq<Deliver>)
    requires ValidRun(c1, c2, n, run)
    ensures |run| + Energy(After(c1, c2, n, run)) <= Energy(n)
    ensures Energy(After(c1, c2, n, run)) == 0 <==> After(c1, c2, n, run).flights == []
    ensures |run| == Energy(n) ==> After(c1, c2, n, run).flights == []
    decreases |run|
  {
    if run != [] {
      DeliveryLosesEnergy(c1, c2, n, run[0]);
      PeersFallSilent(c1, c2, Delivered(c1, c2, n, run[0]), run[1..]);
    } else if n.flights != [] {
      assert Commands(n.flights) == [n.flights[0].command] + Commands(n.flights)[1..];
      TotalWeightAdds([n.flights[0].command], Commands(n.flights)[1..]);
    }
  }
}
