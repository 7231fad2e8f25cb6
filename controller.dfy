/**
 * controller/main.py: the clock controller's start-up and its once-a-second
 * loop. The loop keeps the clock synchronised (hourly over NTP while the
 * WiFi is up, a reconnect attempt every 30 minutes while it is down), sends
 * one command per daily action to the other board at the exact minute of the
 * action, resets the actions once all of them are done, and flips the sunset
 * switch when the other board asks for it.
 */
module ControllerMain {
  import opened Wrappers
  import opened Text
  import opened Logs
  import TimeLogic
  import SunsetTable

  // ---------------------------------------------------------------------------
  // NTP hosts and start-up

  /** `ntp_hosts`, in priority order. */
  const DefaultHosts: seq<string> := ["pool.ntp.org", "time.google.com", "time.cloudflare.com", "time.nist.gov"]

  /** `ntp_sync_interval` and `wifi_retry_interval`, in seconds. */
  const SyncInterval := 3600
  const RetryInterval := 1800

  /** Python truthiness of `custom_ntp`: a host that is present and not the empty string. */
  predicate IsSet(custom: Option<string>) {
    custom.Some? && custom.value != []
  }

  /** `current_ntp_hosts`: the custom host of the connected profile first, when there is one. */
  function HostList(custom: Option<string>): (hosts: seq<string>)
    ensures |hosts| == |DefaultHosts| + (if IsSet(custom) then 1 else 0)
    ensures hosts[|hosts| - |DefaultHosts|..] == DefaultHosts
    ensures IsSet(custom) ==> hosts[0] == custom.value
  {
    if IsSet(custom) then [custom.value] + DefaultHosts else DefaultHosts
  }

  /**
   * With a custom host, the sync succeeds through it when it answers and
   * otherwise goes on through the defaults in their order, one position later;
   * without one, the defaults alone decide.
   */
  lemma HostListOrder(custom: Option<string>, reachable: string -> bool)
    ensures var first := TimeLogic.FirstReachable(HostList(custom), reachable);
      var byDefault := TimeLogic.FirstReachable(DefaultHosts, reachable);
      if !IsSet(custom) then first == byDefault
      else if reachable(custom.value) then first == Some(0)
      else first == (if byDefault.Some? then Some(byDefault.value + 1) else None)
  {
    if IsSet(custom) {
      assert HostList(custom)[1..] == DefaultHosts;
    }
  }

  /**
   * What the network does while the controller talks to it: whether the
   * station is connected (`wlan_sta.isconnected()`), whether a reconnect
   * attempt succeeds (`wifimgr.get_connection()`), the NTP host of the
   * connected profile, which hosts answer, and the time they report.
   */
  datatype Network = Network(connected: bool, reconnects: bool, custom: Option<string>,
                             reachable: string -> bool, time: TimeLogic.RtcDateTime)

  /** Whether `sync_ntp_time(current_ntp_hosts, ...)` succeeds. */
  predicate SyncSucceeds(net: Network) {
    TimeLogic.FirstReachable(HostList(net.custom), net.reachable).Some?
  }

  /**
   * Whether `wifimgr.get_connection()` returns a connection: the station is
   * already connected, or the wait, scan and `do_connect` attempt succeeds.
   */
  predicate GetsConnection(net: Network) {
    net.connected || net.reconnects
  }

  /**
   * The start of `main`: connect, sync over NTP, and fall back to the DS3231
   * exactly when `get_connection()` finds no connection or no host answered.
   * `readable` is whether the DS3231 can be read.
   */
  method StartUp(clocks: TimeLogic.Clocks, net: Network, readable: bool) returns (fallback: bool, timeSet: bool)
    requires 1 <= net.time.month <= 12
    modifies clocks
    ensures fallback <==> !GetsConnection(net) || !SyncSucceeds(net)
    ensures timeSet <==> (GetsConnection(net) && SyncSucceeds(net)) || (fallback && readable && old(clocks.durable).year > 2024)
    ensures GetsConnection(net) && SyncSucceeds(net) ==>
      clocks.internal == net.time && clocks.durable == TimeLogic.GmTime(net.time)
    ensures fallback ==> clocks.durable == old(clocks.durable)
    ensures fallback && timeSet ==> clocks.internal == TimeLogic.RestoredTime(old(clocks.durable))
    ensures fallback && !timeSet ==> clocks.internal == old(clocks.internal)
  {
    fallback := true;
    if GetsConnection(net) {
      var hosts := HostList(net.custom);
      var synced := clocks.SyncNtpTime(hosts, net.reachable, net.time);
      fallback := !synced;
    }
    if fallback {
      timeSet := clocks.RestoreFromDurable(readable);
    } else {
      timeSet := true;
    }
  }

  // ---------------------------------------------------------------------------
  // The daily actions

  /** The keys of `action_flags`. */
  datatype Action = At0755 | At0800 | FiveMinBeforeSunset | AtSunset | At2200

  lemma EveryAction(a: Action)
    ensures a == At0755 || a == At0800 || a == FiveMinBeforeSunset || a == AtSunset || a == At2200
  {
  }

  /** The command written to the other board, followed by a newline. */
  function Code(a: Action): string {
    match a
    case At0755 => "2"
    case At0800 => "0"
    case FiveMinBeforeSunset => "2"
    case AtSunset => "3"
    case At2200 => "1"
  }

  predicate IsFixed(a: Action) {
    a == At0755 || a == At0800 || a == At2200
  }

  /** The minute of the day an action is due; the sunset actions have none without a sunset. */
  function Target(a: Action, sunsetMinutes: Option<int>): Option<int> {
    match a
    case At0755 => Some(7 * 60 + 55)
    case At0800 => Some(8 * 60)
    case FiveMinBeforeSunset => if sunsetMinutes.Some? then Some(sunsetMinutes.value - 5) else None
    case AtSunset => if sunsetMinutes.Some? then Some(sunsetMinutes.value) else None
    case At2200 => Some(22 * 60)
  }

  /**
   * An action is sent on a pass when its flag is down and the minute is
   * exactly its target; the sunset actions also need the sunset switch on.
   */
  predicate Fires(flags: map<Action, bool>, sunsetMinutes: Option<int>, switch: bool, minutes: int, a: Action)
    requires a in flags
  {
    !flags[a] && Target(a, sunsetMinutes).Some? && minutes == Target(a, sunsetMinutes).value && (IsFixed(a) || switch)
  }

  /** The codes and minutes of the five actions. */
  lemma Schedule(s: int)
    ensures Code(At0755) == "2" && Target(At0755, None) == Some(475)
    ensures Code(At0800) == "0" && Target(At0800, None) == Some(480)
    ensures Code(FiveMinBeforeSunset) == "2" && Target(FiveMinBeforeSunset, Some(s)) == Some(s - 5)
    ensures Code(AtSunset) == "3" && Target(AtSunset, Some(s)) == Some(s)
    ensures Code(At2200) == "1" && Target(At2200, None) == Some(1320)
  {
  }

  /**
   * A fixed action depends neither on the sunset nor on the switch; a sunset
   * action is never sent without a sunset or with the switch off.
   */
  lemma FiresWhen(flags: map<Action, bool>, s: Option<int>, switch: bool, minutes: int, a: Action)
    requires a in flags
    ensures IsFixed(a) ==> (Fires(flags, s, switch, minutes, a) <==> !flags[a] && minutes == Target(a, None).value)
    ensures !IsFixed(a) && (s.None? || !switch) ==> !Fires(flags, s, switch, minutes, a)
  {
  }

  function IfFires(flags: map<Action, bool>, s: Option<int>, switch: bool, minutes: int, a: Action): seq<Action>
    requires a in flags
  {
    if Fires(flags, s, switch, minutes, a) then [a] else []
  }

  /** The actions one pass sends, in the source's order. */
  function FiredActions(flags: map<Action, bool>, s: Option<int>, switch: bool, minutes: int): seq<Action>
    requires forall a :: a in flags
  {
    IfFires(flags, s, switch, minutes, At0755) + IfFires(flags, s, switch, minutes, At0800)
      + IfFires(flags, s, switch, minutes, FiveMinBeforeSunset) + IfFires(flags, s, switch, minutes, AtSunset)
      + IfFires(flags, s, switch, minutes, At2200)
  }

  /** One action's check: its flag goes up when it is sent. */
  function Raise(flags: map<Action, bool>, s: Option<int>, switch: bool, minutes: int, a: Action): (f: map<Action, bool>)
    requires a in flags
    ensures f.Keys == flags.Keys
  {
    flags[a := flags[a] || Fires(flags, s, switch, minutes, a)]
  }

  function RaiseAll(flags: map<Action, bool>, s: Option<int>, switch: bool, minutes: int): (f: map<Action, bool>)
    requires forall a :: a in flags
    ensures forall a :: a in f
  {
    var f1 := Raise(flags, s, switch, minutes, At0755);
    var f2 := Raise(f1, s, switch, minutes, At0800);
    var f3 := Raise(f2, s, switch, minutes, FiveMinBeforeSunset);
    var f4 := Raise(f3, s, switch, minutes, AtSunset);
    Raise(f4, s, switch, minutes, At2200)
  }

  lemma RaiseAllFlags(flags: map<Action, bool>, s: Option<int>, switch: bool, minutes: int, a: Action)
    requires forall a :: a in flags
    ensures RaiseAll(flags, s, switch, minutes)[a] == (flags[a] || Fires(flags, s, switch, minutes, a))
  {
  }

  lemma IfFiresCount(flags: map<Action, bool>, s: Option<int>, switch: bool, minutes: int, x: Action, a: Action)
    requires x in flags && a in flags
    ensures Count(IfFires(flags, s, switch, minutes, x), a) == if x == a && Fires(flags, s, switch, minutes, a) then 1 else 0
  {
    var r := IfFires(flags, s, switch, minutes, x);
    if r != [] {
      assert r[1..] == [];
    }
  }

  /** A pass sends an action once when it fires and not otherwise. */
  lemma FiredActionsMembers(flags: map<Action, bool>, s: Option<int>, switch: bool, minutes: int, a: Action)
    requires forall a :: a in flags
    ensures Count(FiredActions(flags, s, switch, minutes), a) == if Fires(flags, s, switch, minutes, a) then 1 else 0
    ensures a in FiredActions(flags, s, switch, minutes) <==> Fires(flags, s, switch, minutes, a)
  {
    var p, q, r := IfFires(flags, s, switch, minutes, At0755), IfFires(flags, s, switch, minutes, At0800),
                   IfFires(flags, s, switch, minutes, FiveMinBeforeSunset);
    var u, v := IfFires(flags, s, switch, minutes, AtSunset), IfFires(flags, s, switch, minutes, At2200);
    CountAppend(p, q, a);
    CountAppend(p + q, r, a);
    CountAppend(p + q + r, u, a);
    CountAppend(p + q + r + u, v, a);
    IfFiresCount(flags, s, switch, minutes, At0755, a);
    IfFiresCount(flags, s, switch, minutes, At0800, a);
    IfFiresCount(flags, s, switch, minutes, FiveMinBeforeSunset, a);
    IfFiresCount(flags, s, switch, minutes, AtSunset, a);
    IfFiresCount(flags, s, switch, minutes, At2200, a);
    CountMember(FiredActions(flags, s, switch, minutes), a);
  }

  lemma IfFiresFrame(f: map<Action, bool>, f': map<Action, bool>, s: Option<int>, switch: bool, minutes: int, a: Action)
    requires a in f && a in f' && f[a] == f'[a]
    ensures IfFires(f, s, switch, minutes, a) == IfFires(f', s, switch, minutes, a)
  {
  }

  /** `all(action_flags.values())`: the flag map is never empty, so the `or` operand is never looked at. */
  predicate AllDone(flags: map<Action, bool>) {
    forall a :: a in flags ==> flags[a]
  }

  /** Every flag down: the literal `action_flags` starts from. */
  function Cleared(): (f: map<Action, bool>)
    ensures forall a :: a in f && !f[a]
  {
    var m := map[At0755 := false, At0800 := false, FiveMinBeforeSunset := false, AtSunset := false, At2200 := false];
    assert forall a :: a in m && !m[a] by {
      forall a: Action ensures a in m && !m[a] {
        EveryAction(a);
      }
    }
    m
  }

  /** A map with every action present and down is `Cleared()`. */
  lemma ClearedIs(f: map<Action, bool>)
    requires forall a :: a in f && !f[a]
    ensures f == Cleared()
  {
    var c := Cleared();
    assert f.Keys == c.Keys;
  }

  // ---------------------------------------------------------------------------
  // One pass of the loop

  /**
   * The loop's own variables: `action_flags`, `sunset_minutes`,
   * `sunset_switch`, `last_ntp_sync_time` and `last_wifi_retry_time`.
   * (`five_min_before_sunset` is `sunset_minutes - 5` whenever it is read.)
   */
  datatype ControllerState = ControllerState(flags: map<Action, bool>, sunsetMinutes: Option<int>, switch: bool,
                                             lastNtpSync: int, lastWifiRetry: int)

  predicate ValidState(st: ControllerState) {
    forall a :: a in st.flags
  }

  /**
   * What one pass reads: the network, `time.time()` before and after any
   * sync, `current_minutes`, today's day number (`get_day_number`) and the
   * line from the other board, `None` when there is none or it does not decode.
   */
  datatype TickInput = TickInput(net: Network, clock: int, clockAfter: int, minutes: int, day: int, line: Option<string>)

  /** The state the loop starts in: timestamps now, today's sunset, flags down, switch on. */
  function Initial(clock: int, sunsetToday: Option<int>): (st: ControllerState)
    ensures ValidState(st)
  {
    ControllerState(Cleared(), sunsetToday, true, clock, clock)
  }

  /** Whether a pass tries NTP: hourly while connected, or after a successful reconnect. */
  predicate SyncAttempted(st: ControllerState, net: Network, clock: int) {
    if net.connected then clock - st.lastNtpSync > SyncInterval
    else clock - st.lastWifiRetry > RetryInterval && net.reconnects
  }

  /** The sync and retry timestamps after the connectivity part of a pass. */
  function Cadence(st: ControllerState, net: Network, clock: int, clockAfter: int): (st': ControllerState)
    ensures st'.flags == st.flags && st'.sunsetMinutes == st.sunsetMinutes && st'.switch == st.switch
  {
    if net.connected then
      if clock - st.lastNtpSync > SyncInterval then st.(lastNtpSync := clockAfter) else st
    else if clock - st.lastWifiRetry > RetryInterval then
      var synced := net.reconnects && SyncSucceeds(net);
      st.(lastNtpSync := if synced then clockAfter else st.lastNtpSync, lastWifiRetry := clockAfter)
    else st
  }

  /** The sunset switch after a line from the other board: "Auto_Sunset_Toggle", stripped, flips it. */
  function Toggle(switch: bool, line: Option<string>): bool {
    if line.Some? && Strip(line.value) == "Auto_Sunset_Toggle" then !switch else switch
  }

  /**
   * A whole pass: connectivity, the five action checks, the completion check
   * that lowers every flag and looks the sunset up again, and the serial line.
   * `sunsetNow` is what the lookup gives for `input.day`.
   */
  function Step(st: ControllerState, input: TickInput, sunsetNow: Option<int>): (r: (ControllerState, seq<Action>))
    requires ValidState(st)
    ensures ValidState(r.0)
  {
    var s1 := Cadence(st, input.net, input.clock, input.clockAfter);
    var fired := FiredActions(s1.flags, s1.sunsetMinutes, s1.switch, input.minutes);
    var s2 := Complete(s1.(flags := RaiseAll(s1.flags, s1.sunsetMinutes, s1.switch, input.minutes)), sunsetNow);
    (s2.(switch := Toggle(s2.switch, input.line)), fired)
  }

  /** The completion check: with every flag up, all flags go down and the sunset is looked up again. */
  function Complete(st: ControllerState, sunsetNow: Option<int>): (st': ControllerState)
    requires ValidState(st)
    ensures ValidState(st')
  {
    if AllDone(st.flags) then st.(flags := Cleared(), sunsetMinutes := sunsetNow) else st
  }

  /**
   * The hourly sync runs only after more than an hour and then always
   * restarts the hour, whether or not a host answered; the retry runs only
   * after more than 30 minutes without a connection and always restarts its
   * half hour, but restarts the sync hour only when the reconnect and the
   * sync both succeeded.
   */
  lemma CadenceTimestamps(st: ControllerState, net: Network, clock: int, clockAfter: int)
    ensures var st' := Cadence(st, net, clock, clockAfter);
      && (st'.lastNtpSync != st.lastNtpSync ==> SyncAttempted(st, net, clock))
      && (net.connected ==>
            st'.lastWifiRetry == st.lastWifiRetry
            && st'.lastNtpSync == if clock - st.lastNtpSync > SyncInterval then clockAfter else st.lastNtpSync)
      && (!net.connected ==>
            st'.lastWifiRetry == (if clock - st.lastWifiRetry > RetryInterval then clockAfter else st.lastWifiRetry)
            && st'.lastNtpSync == if SyncAttempted(st, net, clock) && SyncSucceeds(net) then clockAfter else st.lastNtpSync)
  {
  }

  /** After an hourly sync that ended at `clockAfter`, no sync is attempted for the next hour while connected. */
  lemma NoSyncWithinTheHour(st: ControllerState, net: Network, clock: int, clockAfter: int, later: Network, clock2: int)
    requires net.connected && SyncAttempted(st, net, clock)
    requires later.connected && clock2 <= clockAfter + SyncInterval
    ensures !SyncAttempted(Cadence(st, net, clock, clockAfter), later, clock2)
  {
  }

  /** Only the exact (stripped) line "Auto_Sunset_Toggle" flips the switch, and a second one flips it back. */
  lemma ToggleLines(switch: bool, line: Option<string>)
    ensures Toggle(switch, line) != switch <==> line.Some? && Strip(line.value) == "Auto_Sunset_Toggle"
    ensures Toggle(Toggle(switch, line), line) == switch
  {
  }

  /** The lines the player board sends when its switch button moves, "Auto_Sunset_ON" and "OFF", do not flip it. */
  lemma StatusLinesDoNotToggle(switch: bool, line: string)
    requires line == "Auto_Sunset_ON" || line == "Auto_Sunset_OFF"
    ensures Toggle(switch, Some(line)) == switch
  {
    StripByUnchanged(line, IsSpace);
    assert |line| != |"Auto_Sunset_Toggle"|;
  }

  /**
   * On a pass an action is sent exactly when its flag was down, the minute
   * is its target and (for a sunset action) the switch is on; it is sent at
   * most once. Unless that pass completed the day, its flag is then up; if
   * it did, every flag is down and the sunset is the one looked up now.
   */
  lemma StepSends(st: ControllerState, input: TickInput, sunsetNow: Option<int>, a: Action)
    requires ValidState(st)
    ensures var (st', fired) := Step(st, input, sunsetNow);
      var raised := RaiseAll(st.flags, st.sunsetMinutes, st.switch, input.minutes);
      && (a in fired <==> Fires(st.flags, st.sunsetMinutes, st.switch, input.minutes, a))
      && Count(fired, a) <= 1
      && (!AllDone(raised) ==> st'.flags[a] == (st.flags[a] || a in fired) && st'.sunsetMinutes == st.sunsetMinutes)
      && (AllDone(raised) ==> !st'.flags[a] && st'.sunsetMinutes == sunsetNow)
      && st'.switch == Toggle(st.switch, input.line)
  {
    var s1 := Cadence(st, input.net, input.clock, input.clockAfter);
    FiredActionsMembers(s1.flags, s1.sunsetMinutes, s1.switch, input.minutes, a);
    RaiseAllFlags(s1.flags, s1.sunsetMinutes, s1.switch, input.minutes, a);
  }

  /** The completion check passes exactly on the pass that sends the last action still due. */
  lemma CompletesWithLastAction(st: ControllerState, input: TickInput, sunsetNow: Option<int>)
    requires ValidState(st) && !AllDone(st.flags)
    ensures var raised := RaiseAll(st.flags, st.sunsetMinutes, st.switch, input.minutes);
      AllDone(raised) <==> forall a :: !st.flags[a] ==> Fires(st.flags, st.sunsetMinutes, st.switch, input.minutes, a)
  {
    var raised := RaiseAll(st.flags, st.sunsetMinutes, st.switch, input.minutes);
    forall a ensures raised[a] == (st.flags[a] || Fires(st.flags, st.sunsetMinutes, st.switch, input.minutes, a)) {
      RaiseAllFlags(st.flags, st.sunsetMinutes, st.switch, input.minutes, a);
    }
  }

  // ---------------------------------------------------------------------------
  // Runs of passes, as written and with a date-keyed reset

  predicate NoToggle(inputs: seq<TickInput>) {
    forall i :: 0 <= i < |inputs| ==> Toggle(false, inputs[i].line) == false
  }

  /** Successive passes: the final state and every action sent, in order. `sunsetOf` is the lookup per day. */
  function Run(st: ControllerState, inputs: seq<TickInput>, sunsetOf: int -> Option<int>): (r: (ControllerState, seq<Action>))
    requires ValidState(st)
    ensures ValidState(r.0)
    decreases |inputs|
  {
    if inputs == [] then (st, [])
    else
      var (s1, f1) := Step(st, inputs[0], sunsetOf(inputs[0].day));
      var (s2, f2) := Run(s1, inputs[1..], sunsetOf);
      (s2, f1 + f2)
  }

  /**
   * As written, the flags are reset on the very pass that sends the last
   * action of the day, and the wait before the reset only waits during
   * minute 0; so when 22:00 is the last action due, the next pass, a second
   * later and still at minute 1320, sends it again (with a new sunset before
   * 22:00 nothing else is due then).
   */
  lemma ResetResends(st: ControllerState, p1: TickInput, p2: TickInput, sunsetNow: Option<int>)
    requires ValidState(st) && !st.flags[At2200] && forall a :: a != At2200 ==> st.flags[a]
    requires p1.minutes == 1320 && p2.minutes == 1320
    requires sunsetNow.None? || sunsetNow.value < 1320
    ensures var (s1, f1) := Step(st, p1, sunsetNow);
      f1 == [At2200] && (forall a :: !s1.flags[a]) && Step(s1, p2, sunsetNow).1 == [At2200]
  {
    LastActionCompletes(st, p1, sunsetNow);
    FreshPassAt2200(Step(st, p1, sunsetNow).0, p2, sunsetNow);
  }

  lemma LastActionCompletes(st: ControllerState, p: TickInput, sunsetNow: Option<int>)
    requires ValidState(st) && !st.flags[At2200] && forall a :: a != At2200 ==> st.flags[a]
    requires p.minutes == 1320
    ensures Step(st, p, sunsetNow).1 == [At2200]
    ensures Step(st, p, sunsetNow).0.flags == Cleared() && Step(st, p, sunsetNow).0.sunsetMinutes == sunsetNow
  {
    var c := Cadence(st, p.net, p.clock, p.clockAfter);
    var f, s, w := c.flags, c.sunsetMinutes, c.switch;
    assert IfFires(f, s, w, 1320, At0755) == [] && IfFires(f, s, w, 1320, At0800) == [];
    assert IfFires(f, s, w, 1320, FiveMinBeforeSunset) == [] && IfFires(f, s, w, 1320, AtSunset) == [];
    assert IfFires(f, s, w, 1320, At2200) == [At2200];
    assert AllDone(RaiseAll(f, s, w, 1320)) by {
      forall a ensures RaiseAll(f, s, w, 1320)[a] {
        RaiseAllFlags(f, s, w, 1320, a);
      }
    }
  }

  lemma FreshPassAt2200(st: ControllerState, p: TickInput, sunsetNow: Option<int>)
    requires st.flags == Cleared() && st.sunsetMinutes == sunsetNow
    requires p.minutes == 1320 && (sunsetNow.None? || sunsetNow.value < 1320)
    ensures Step(st, p, sunsetNow).1 == [At2200]
  {
    var c := Cadence(st, p.net, p.clock, p.clockAfter);
    var f, s, w := c.flags, c.sunsetMinutes, c.switch;
    assert IfFires(f, s, w, 1320, At0755) == [] && IfFires(f, s, w, 1320, At0800) == [];
    assert IfFires(f, s, w, 1320, FiveMinBeforeSunset) == [] && IfFires(f, s, w, 1320, AtSunset) == [];
    assert IfFires(f, s, w, 1320, At2200) == [At2200];
  }

  /** A state stuck after a day whose sunset actions could not be sent: fixed flags up, some sunset flag down. */
  predicate Stuck(st: ControllerState) {
    && ValidState(st)
    && st.flags[At0755] && st.flags[At0800] && st.flags[At2200]
    && !(st.flags[FiveMinBeforeSunset] && st.flags[AtSunset])
    && (st.sunsetMinutes.None? || !st.switch)
  }

  /**
   * As written, the reset waits for every flag; when the day had no sunset
   * (or the switch was off) a sunset flag stays down, so the flags are never
   * reset and, with no toggle arriving, no action is ever sent again.
   */
  lemma {:induction false} StuckForever(st: ControllerState, inputs: seq<TickInput>, sunsetOf: int -> Option<int>)
    requires Stuck(st) && NoToggle(inputs)
    ensures Run(st, inputs, sunsetOf).1 == []
    decreases |inputs|
  {
    if inputs != [] {
      StuckStep(st, inputs[0], sunsetOf(inputs[0].day));
      var s1 := Step(st, inputs[0], sunsetOf(inputs[0].day)).0;
      assert NoToggle(inputs[1..]);
      StuckForever(s1, inputs[1..], sunsetOf);
    }
  }

  /** One pass from a stuck state sends nothing and stays stuck. */
  lemma StuckStep(st: ControllerState, input: TickInput, sunsetNow: Option<int>)
    requires Stuck(st) && !Toggle(false, input.line)
    ensures Step(st, input, sunsetNow).1 == [] && Stuck(Step(st, input, sunsetNow).0)
  {
    var c := Cadence(st, input.net, input.clock, input.clockAfter);
    var f, s, w, m := c.flags, c.sunsetMinutes, c.switch, input.minutes;
    assert IfFires(f, s, w, m, At0755) == [] && IfFires(f, s, w, m, At0800) == [];
    assert IfFires(f, s, w, m, FiveMinBeforeSunset) == [] && IfFires(f, s, w, m, AtSunset) == [];
    assert IfFires(f, s, w, m, At2200) == [];
    var raised := RaiseAll(f, s, w, m);
    forall a ensures raised[a] == f[a] {
      RaiseAllFlags(f, s, w, m, a);
    }
    assert !AllDone(raised) by {
      if f[FiveMinBeforeSunset] {
        assert !raised[AtSunset];
      } else {
        assert !raised[FiveMinBeforeSunset];
      }
    }
    assert Toggle(w, input.line) == w;
  }

  /**
   * The intended daily cycle, as the source's comments describe it: the
   * flags are lowered and the sunset looked up once the day has changed,
   * whatever the previous day managed to send. `day` is the day of the
   * last reset.
   */
  datatype DatedState = DatedState(st: ControllerState, day: int)

  function DatedStep(ds: DatedState, input: TickInput, sunsetNow: Option<int>): (r: (DatedState, seq<Action>))
    requires ValidState(ds.st)
    ensures ValidState(r.0.st) && r.0.day == input.day
  {
    var s0 := if input.day != ds.day then ds.st.(flags := Cleared(), sunsetMinutes := sunsetNow) else ds.st;
    var s1 := Cadence(s0, input.net, input.clock, input.clockAfter);
    var fired := FiredActions(s1.flags, s1.sunsetMinutes, s1.switch, input.minutes);
    var raised := RaiseAll(s1.flags, s1.sunsetMinutes, s1.switch, input.minutes);
    (DatedState(s1.(flags := raised, switch := Toggle(s1.switch, input.line)), input.day), fired)
  }

  function DatedRun(ds: DatedState, inputs: seq<TickInput>, sunsetOf: int -> Option<int>): (r: (DatedState, seq<Action>))
    requires ValidState(ds.st)
    ensures ValidState(r.0.st)
    decreases |inputs|
  {
    if inputs == [] then (ds, [])
    else
      var (s1, f1) := DatedStep(ds, inputs[0], sunsetOf(inputs[0].day));
      var (s2, f2) := DatedRun(s1, inputs[1..], sunsetOf);
      (s2, f1 + f2)
  }

  predicate AllOn(inputs: seq<TickInput>, day: int) {
    forall i :: 0 <= i < |inputs| ==> inputs[i].day == day
  }

  lemma DatedStepSends(ds: DatedState, input: TickInput, sunsetNow: Option<int>, a: Action)
    requires ValidState(ds.st)
    ensures var s0 := if input.day != ds.day then ds.st.(flags := Cleared(), sunsetMinutes := sunsetNow) else ds.st;
      var (ds', fired) := DatedStep(ds, input, sunsetNow);
      && (a in fired <==> Fires(s0.flags, s0.sunsetMinutes, s0.switch, input.minutes, a))
      && Count(fired, a) <= 1
      && ds'.st.flags[a] == (s0.flags[a] || a in fired)
      && ds'.st.sunsetMinutes == s0.sunsetMinutes
  {
    var s0 := if input.day != ds.day then ds.st.(flags := Cleared(), sunsetMinutes := sunsetNow) else ds.st;
    var s1 := Cadence(s0, input.net, input.clock, input.clockAfter);
    FiredActionsMembers(s1.flags, s1.sunsetMinutes, s1.switch, input.minutes, a);
    RaiseAllFlags(s1.flags, s1.sunsetMinutes, s1.switch, input.minutes, a);
  }

  /** With the date-keyed reset, over the passes of one day each action is sent at most once. */
  lemma {:induction false} DatedAtMostOncePerDay(ds: DatedState, inputs: seq<TickInput>, sunsetOf: int -> Option<int>,
                                                 day: int, a: Action)
    requires ValidState(ds.st) && AllOn(inputs, day)
    ensures Count(DatedRun(ds, inputs, sunsetOf).1, a) <= if ds.day == day && ds.st.flags[a] then 0 else 1
    decreases |inputs|
  {
    if inputs != [] {
      assert inputs[0].day == day;
      var r1 := DatedStep(ds, inputs[0], sunsetOf(day));
      var s1, f1 := r1.0, r1.1;
      DatedStepSends(ds, inputs[0], sunsetOf(day), a);
      CountMember(f1, a);
      assert AllOn(inputs[1..], day);
      assert DatedRun(ds, inputs, sunsetOf).1 == f1 + DatedRun(s1, inputs[1..], sunsetOf).1;
      DatedAtMostOncePerDay(s1, inputs[1..], sunsetOf, day, a);
      CountAppend(f1, DatedRun(s1, inputs[1..], sunsetOf).1, a);
    }
  }

  /**
   * And on every new day a fixed action is sent when a pass lands on its
   * minute, whatever happened the day before.
   */
  lemma {:induction false} DatedFixedFiresEachDay(ds: DatedState, inputs: seq<TickInput>, sunsetOf: int -> Option<int>,
                                                  day: int, a: Action, k: nat)
    requires ValidState(ds.st) && AllOn(inputs, day) && IsFixed(a)
    requires ds.day != day || !ds.st.flags[a]
    requires k < |inputs| && inputs[k].minutes == Target(a, None).value
    ensures Count(DatedRun(ds, inputs, sunsetOf).1, a) >= 1
    decreases k
  {
    assert inputs[0].day == day;
    var (s1, f1) := DatedStep(ds, inputs[0], sunsetOf(day));
    DatedStepSends(ds, inputs[0], sunsetOf(day), a);
    assert AllOn(inputs[1..], day);
    CountAppend(f1, DatedRun(s1, inputs[1..], sunsetOf).1, a);
    CountMember(f1, a);
    if a !in f1 {
      assert k > 0;
      assert inputs[1..][k - 1] == inputs[k];
      DatedFixedFiresEachDay(s1, inputs[1..], sunsetOf, day, a, k - 1);
    }
  }

  // ---------------------------------------------------------------------------
  // The loop's state, updated in place

  class Controller {
    var actionFlags: map<Action, bool>
    var sunsetMinutes: Option<int>
    var fiveMinBeforeSunset: int
    var sunsetSwitch: bool
    var lastNtpSync: int
    var lastWifiRetry: int
    /** The sunset file's lines, `None` when it cannot be opened. */
    const table: Option<seq<string>>
    const clocks: TimeLogic.Clocks

    ghost predicate Valid()
      reads this
    {
      ValidState(State()) && (sunsetMinutes.Some? ==> fiveMinBeforeSunset == sunsetMinutes.value - 5)
    }

    function State(): ControllerState
      reads this
    {
      ControllerState(actionFlags, sunsetMinutes, sunsetSwitch, lastNtpSync, lastWifiRetry)
    }

    /** The set-up after start-up: both timestamps now, today's sunset, flags down, switch on. */
    constructor (clocks: TimeLogic.Clocks, table: Option<seq<string>>, clock: int, today: int)
      ensures Valid() && State() == Initial(clock, SunsetTable.SunsetMinutes(table, today))
      ensures this.clocks == clocks && this.table == table
    {
      this.clocks := clocks;
      this.table := table;
      lastNtpSync := clock;
      lastWifiRetry := clock;
      var sunset := SunsetTable.GetSunsetMinutes(table, today);
      sunsetMinutes := sunset;
      fiveMinBeforeSunset := if sunset.Some? then sunset.value - 5 else 0;
      actionFlags := map[At0755 := false, At0800 := false, FiveMinBeforeSunset := false, AtSunset := false, At2200 := false];
      sunsetSwitch := true;
      new;
      assert actionFlags == Cleared();
    }

    /** The connectivity part of a pass: the hourly sync, or the half-hourly reconnect and sync. */
    method KeepInSync(net: Network, clock: int, clockAfter: int)
      requires 1 <= net.time.month <= 12
      modifies this`lastNtpSync, this`lastWifiRetry, clocks
      ensures State() == Cadence(old(State()), net, clock, clockAfter)
      ensures !SyncAttempted(old(State()), net, clock) ==> unchanged(clocks)
      ensures SyncAttempted(old(State()), net, clock) && SyncSucceeds(net) ==>
        clocks.internal == net.time && clocks.durable == TimeLogic.GmTime(net.time)
      ensures SyncAttempted(old(State()), net, clock) && !SyncSucceeds(net) ==>
        clocks.internal == old(clocks.internal) && clocks.durable == old(clocks.durable)
    {
      if net.connected {
        if clock - lastNtpSync > SyncInterval {
          var synced := clocks.SyncNtpTime(HostList(net.custom), net.reachable, net.time);
          lastNtpSync := clockAfter;
        }
      } else if clock - lastWifiRetry > RetryInterval {
        if net.reconnects {
          var synced := clocks.SyncNtpTime(HostList(net.custom), net.reachable, net.time);
          if synced {
            lastNtpSync := clockAfter;
          }
        }
        lastWifiRetry := clockAfter;
      }
    }

    /** Sends an action whose flag is down at its exact minute and raises its flag. */
    method Check(a: Action, target: int, minutes: int, sent: seq<Action>) returns (sent': seq<Action>)
      requires a in actionFlags
      requires Target(a, sunsetMinutes) == Some(target) && (IsFixed(a) || sunsetSwitch)
      modifies this`actionFlags
      ensures sent' == sent + IfFires(old(actionFlags), sunsetMinutes, sunsetSwitch, minutes, a)
      ensures actionFlags == Raise(old(actionFlags), sunsetMinutes, sunsetSwitch, minutes, a)
    {
      sent' := sent;
      if !actionFlags[a] && minutes == target {
        sent' := sent + [a];
        actionFlags := actionFlags[a := true];
      }
    }

    /** The five checks of one pass, in the source's order. */
    method CheckActions(minutes: int) returns (sent: seq<Action>)
      requires forall a :: a in actionFlags
      requires sunsetMinutes.Some? ==> fiveMinBeforeSunset == sunsetMinutes.value - 5
      modifies this`actionFlags
      ensures actionFlags == RaiseAll(old(actionFlags), sunsetMinutes, sunsetSwitch, minutes)
      ensures sent == FiredActions(old(actionFlags), sunsetMinutes, sunsetSwitch, minutes)
    {
      ghost var f0 := actionFlags;
      sent := Check(At0755, 7 * 60 + 55, minutes, []);
      ghost var f1 := actionFlags;
      IfFiresFrame(f0, f1, sunsetMinutes, sunsetSwitch, minutes, At0800);
      sent := Check(At0800, 8 * 60, minutes, sent);
      ghost var f2 := actionFlags;
      IfFiresFrame(f0, f2, sunsetMinutes, sunsetSwitch, minutes, FiveMinBeforeSunset);
      IfFiresFrame(f0, f2, sunsetMinutes, sunsetSwitch, minutes, AtSunset);
      sent := CheckSunsetActions(minutes, sent);
      ghost var f4 := actionFlags;
      IfFiresFrame(f0, f4, sunsetMinutes, sunsetSwitch, minutes, At2200);
      sent := Check(At2200, 22 * 60, minutes, sent);
      assert actionFlags == Raise(f4, sunsetMinutes, sunsetSwitch, minutes, At2200);
      assert f4 == Raise(Raise(f2, sunsetMinutes, sunsetSwitch, minutes, FiveMinBeforeSunset),
                         sunsetMinutes, sunsetSwitch, minutes, AtSunset);
      assert f2 == Raise(Raise(f0, sunsetMinutes, sunsetSwitch, minutes, At0755), sunsetMinutes, sunsetSwitch, minutes, At0800);
    }

    /** The two sunset checks, which need a sunset and the switch on. */
    method CheckSunsetActions(minutes: int, sent: seq<Action>) returns (sent': seq<Action>)
      requires forall a :: a in actionFlags
      requires sunsetMinutes.Some? ==> fiveMinBeforeSunset == sunsetMinutes.value - 5
      modifies this`actionFlags
      ensures actionFlags == Raise(Raise(old(actionFlags), sunsetMinutes, sunsetSwitch, minutes, FiveMinBeforeSunset),
                                   sunsetMinutes, sunsetSwitch, minutes, AtSunset)
      ensures sent' == sent + IfFires(old(actionFlags), sunsetMinutes, sunsetSwitch, minutes, FiveMinBeforeSunset)
                            + IfFires(old(actionFlags), sunsetMinutes, sunsetSwitch, minutes, AtSunset)
    {
      sent' := sent;
      ghost var f0 := actionFlags;
      if sunsetMinutes.Some? && sunsetSwitch {
        sent' := Check(FiveMinBeforeSunset, fiveMinBeforeSunset, minutes, sent');
        IfFiresFrame(f0, actionFlags, sunsetMinutes, sunsetSwitch, minutes, AtSunset);
        sent' := Check(AtSunset, sunsetMinutes.value, minutes, sent');
      } else {
        assert Raise(f0, sunsetMinutes, sunsetSwitch, minutes, FiveMinBeforeSunset) == f0;
        assert Raise(f0, sunsetMinutes, sunsetSwitch, minutes, AtSunset) == f0;
      }
    }

    /** `for key in action_flags: action_flags[key] = False`. */
    method ClearFlags()
      requires forall a :: a in actionFlags
      modifies this`actionFlags
      ensures actionFlags == Cleared()
    {
      var keys := actionFlags.Keys;
      while keys != {}
        invariant keys <= actionFlags.Keys == old(actionFlags).Keys
        invariant forall a :: a in actionFlags && a !in keys ==> !actionFlags[a]
        decreases keys
      {
        var k :| k in keys;
        actionFlags := actionFlags[k := false];
        keys := keys - {k};
      }
      ClearedIs(actionFlags);
    }

    /** The completion check: once every flag is up, lower them all and look up today's sunset. */
    method ResetIfDone(today: int)
      requires Valid()
      modifies this`actionFlags, this`sunsetMinutes, this`fiveMinBeforeSunset
      ensures Valid()
      ensures State() == Complete(old(State()), SunsetTable.SunsetMinutes(table, today))
    {
      var done := forall a | a in actionFlags :: actionFlags[a];
      if done {
        ClearFlags();
        var sunset := SunsetTable.GetSunsetMinutes(table, today);
        sunsetMinutes := sunset;
        if sunset.Some? {
          fiveMinBeforeSunset := sunset.value - 5;
        }
      }
    }

    /** One pass of the `while True` body; `sent` are the actions written to the other board. */
    method Tick(input: TickInput) returns (sent: seq<Action>)
      requires Valid() && 1 <= input.net.time.month <= 12
      modifies this, clocks
      ensures Valid()
      ensures State() == Step(old(State()), input, SunsetTable.SunsetMinutes(table, input.day)).0
      ensures sent == Step(old(State()), input, SunsetTable.SunsetMinutes(table, input.day)).1
      ensures !SyncAttempted(old(State()), input.net, input.clock) ==> unchanged(clocks)
      ensures SyncAttempted(old(State()), input.net, input.clock) && SyncSucceeds(input.net) ==>
        clocks.internal == input.net.time && clocks.durable == TimeLogic.GmTime(input.net.time)
      ensures SyncAttempted(old(State()), input.net, input.clock) && !SyncSucceeds(input.net) ==>
        clocks.internal == old(clocks.internal) && clocks.durable == old(clocks.durable)
    {
      KeepInSync(input.net, input.clock, input.clockAfter);
      sent := ActionsAndReset(input.minutes, input.day);
      ghost var s2 := State();
      ReadLine(input.line);
      assert State() == s2.(switch := Toggle(s2.switch, input.line));
    }

    /** The five action checks, then the completion check. */
    method ActionsAndReset(minutes: int, day: int) returns (sent: seq<Action>)
      requires Valid()
      modifies this`actionFlags, this`sunsetMinutes, this`fiveMinBeforeSunset
      ensures Valid()
      ensures var s1 := old(State());
        State() == Complete(s1.(flags := RaiseAll(s1.flags, s1.sunsetMinutes, s1.switch, minutes)), SunsetTable.SunsetMinutes(table, day))
      ensures sent == FiredActions(old(actionFlags), old(sunsetMinutes), old(sunsetSwitch), minutes)
    {
      ghost var s1 := State();
      sent := CheckActions(minutes);
      assert State() == s1.(flags := RaiseAll(s1.flags, s1.sunsetMinutes, s1.switch, minutes));
      ResetIfDone(day);
    }

    /** The serial block: a stripped "Auto_Sunset_Toggle" flips the sunset switch. */
    method ReadLine(line: Option<string>)
      modifies this`sunsetSwitch
      ensures sunsetSwitch == Toggle(old(sunsetSwitch), line)
    {
      if line.Some? && Strip(line.value) == "Auto_Sunset_Toggle" {
        sunsetSwitch := !sunsetSwitch;
      }
    }
  }
}
