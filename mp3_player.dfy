/**
 * mp3_player/src/main.cpp: the sound board. Six active-low buttons are
 * debounced in `loop()`; four of them play a track or start a two-track
 * sequence, one stops playback, one sends the sunset switch state to the
 * controller over the second serial port; a finished track advances the
 * running sequence; a digit received on the serial port presses one of the
 * first four buttons.
 *
 * The audio library is reduced to the track it was last told to play
 * (`connecttoFS`, cleared by `stopSong`) and to the running flag it reports,
 * which is an input. The lines written to the second serial port are kept
 * as a log.
 */
module Mp3Player {
  import opened Wrappers
  import opened Text

  const DebounceMs: int := 50
  /** `unsigned long` on the ESP32 is 32 bits wide: `millis()` and differences of it wrap here. */
  const MillisModulus: int := 0x1_0000_0000

  const Pin1: int := 5
  const Pin2: int := 18
  const Pin3: int := 23
  const Pin4: int := 13
  const Pin5: int := 33
  const Pin6: int := 27

  /** Digital levels: the buttons pull up, so a pressed button reads LOW. */
  const High: bool := true
  const Low: bool := false

  const Sequence1: seq<string> := ["/star_spangled_banner.mp3", "/carry_on.mp3"]
  const Sequence4: seq<string> := ["/retreat.mp3", "/carry_on.mp3"]

  /** The `Button` struct: its wiring and what it plays, then its debounce state. */
  datatype Button = Button(pin: int, direct: Option<string>, sequence: Option<seq<string>>, sequenceLen: int,
                           starter: bool, lastDebounceTime: int, lastRawState: bool, stableState: bool)

  function MakeButton(pin: int, direct: Option<string>, sequence: Option<seq<string>>, starter: bool): Button {
    Button(pin, direct, sequence, if sequence.Some? then |sequence.value| else 0, starter, 0, High, High)
  }

  /** The `buttons[]` array as the firmware starts with it. */
  function InitialButtons(): (bs: seq<Button>)
    ensures |bs| == 6
  {
    [ MakeButton(Pin1, None, Some(Sequence1), true),
      MakeButton(Pin2, Some("/taps.mp3"), None, false),
      MakeButton(Pin3, Some("/first_call.mp3"), None, false),
      MakeButton(Pin4, None, Some(Sequence4), true),
      MakeButton(Pin5, None, None, false),
      MakeButton(Pin6, None, None, false) ]
  }

  /** Two buttons with the same wiring, whatever their debounce state. */
  predicate SameWiring(a: Button, b: Button) {
    a.pin == b.pin && a.direct == b.direct && a.sequence == b.sequence && a.sequenceLen == b.sequenceLen
    && a.starter == b.starter
  }

  /** What `startAudioPlayback` needs of a button: a sequence of the stated length, or a file. */
  predicate Playable(b: Button) {
    if b.starter then b.sequence.Some? && b.sequenceLen == |b.sequence.value| else b.direct.Some?
  }

  // ---------------------------------------------------------------------------
  // Playback state

  /**
   * The sequence globals (`currentActiveSequence` with `None` for `nullptr`,
   * its index and length, `isPlayingASequence`, `trackWasRunning`) and the
   * track the audio library plays.
   */
  datatype Playback = Playback(sequence: Option<seq<string>>, index: int, length: int, playing: bool,
                               wasRunning: bool, track: Option<string>)

  /** The index stays within the length, which is the active sequence's. */
  predicate Aligned(p: Playback) {
    0 <= p.index <= p.length && (p.sequence.Some? ==> p.length == |p.sequence.value|)
  }

  /** Besides, a sequence that plays has a track at its index, and that track is the one playing. */
  predicate Consistent(p: Playback) {
    Aligned(p)
    && (p.playing ==> p.sequence.Some? && p.index < p.length && p.track == Some(p.sequence.value[p.index]))
  }

  /**
   * `playNextInSequence()`; `running` is what `audio.isRunning()` reports
   * once the track is opened. It plays the track at the index exactly when a
   * sequence is on and not past its end, and otherwise ends the sequence.
   */
  function PlayNext(p: Playback, running: bool): (q: Playback)
    requires Aligned(p)
    ensures Consistent(q)
    ensures q.playing <==> p.playing && p.sequence.Some? && p.index < p.length
    ensures q.playing ==> q.track == Some(p.sequence.value[p.index]) && q.wasRunning == running
                          && q.sequence == p.sequence
    ensures !q.playing ==> q.sequence.None? && q.track == p.track
    ensures q.index == p.index && q.length == p.length
  {
    if p.playing && p.sequence.Some? && p.index < p.length then
      p.(track := Some(p.sequence.value[p.index]), wasRunning := running)
    else p.(playing := false, sequence := None)
  }

  /**
   * `startAudioPlayback(btn)`. A sequence starter sets the sequence, its
   * length and index 0, turns the sequence on and plays its first track; a
   * direct button plays its file and clears the sequence state.
   */
  function Start(p: Playback, b: Button, running: bool): (q: Playback)
    requires Aligned(p) && Playable(b)
    ensures Consistent(q)
    ensures b.starter && b.sequenceLen > 0 ==>
              q.sequence == b.sequence && q.length == b.sequenceLen && q.index == 0 && q.playing
              && q.track == Some(b.sequence.value[0])
    ensures !b.starter ==> !q.playing && q.sequence.None? && q.track == b.direct && q.index == p.index
  {
    var stopped := p.(track := None);
    if b.starter then
      PlayNext(stopped.(sequence := b.sequence, length := b.sequenceLen, index := 0, playing := true), running)
    else stopped.(track := b.direct, playing := false, sequence := None, wasRunning := running)
  }

  /** The stop button: `stopSong()` and the sequence state cleared. */
  function StopAll(p: Playback): (q: Playback)
    requires Consistent(p)
    ensures Consistent(q)
    ensures !q.playing && q.sequence.None? && q.track.None?
  {
    p.(track := None, playing := false, sequence := None)
  }

  /**
   * The end-of-track block of `loop()`: while a sequence plays, a falling
   * edge of the running flag moves to the next track or ends the sequence;
   * the flag is then remembered.
   */
  function Advance(p: Playback, nowRunning: bool): (q: Playback)
    requires Consistent(p)
    ensures Consistent(q)
    ensures p.playing && p.wasRunning && !nowRunning ==>
              q.index == p.index + 1 && (q.playing <==> p.index + 1 < p.length)
              && (q.playing ==> q.track == Some(p.sequence.value[p.index + 1]) && q.sequence == p.sequence)
              && (!q.playing ==> q.sequence.None?)
    ensures !(p.playing && p.wasRunning && !nowRunning) ==>
              q.index == p.index && q.playing == p.playing && q.track == p.track && q.sequence == p.sequence
    ensures q.length == p.length && (p.playing ==> q.wasRunning == nowRunning)
  {
    if !p.playing then p
    else if p.wasRunning && !nowRunning then
      var next := p.(index := p.index + 1);
      var q := if next.index < next.length then PlayNext(next, nowRunning) else next.(playing := false, sequence := None);
      q.(wasRunning := nowRunning)
    else p.(wasRunning := nowRunning)
  }

  /** A track plays and then stops. */
  function TrackEnds(p: Playback): (q: Playback)
    requires Consistent(p)
    ensures Consistent(q)
  {
    Advance(Advance(p, true), false)
  }

  function TracksEnd(p: Playback, k: nat): (q: Playback)
    requires Consistent(p)
    ensures Consistent(q)
    decreases k
  {
    if k == 0 then p else TrackEnds(TracksEnd(p, k - 1))
  }

  /**
   * A started sequence plays its tracks in order: after `k` tracks have
   * run to their end the `k`-th one plays, and after the last it is over.
   */
  lemma {:induction false} SequencePlaysInOrder(p: Playback, b: Button, running: bool, k: nat)
    requires Aligned(p) && Playable(b) && b.starter && 0 < b.sequenceLen && k <= b.sequenceLen
    ensures var q := TracksEnd(Start(p, b, running), k);
      && (k < b.sequenceLen ==> q.playing && q.index == k && q.track == Some(b.sequence.value[k])
                                && q.sequence == b.sequence && q.length == b.sequenceLen)
      && (k == b.sequenceLen ==> !q.playing && q.sequence.None? && q.index == k)
    decreases k
  {
    var start := Start(p, b, running);
    if k > 0 {
      SequencePlaysInOrder(p, b, running, k - 1);
      var q := TracksEnd(start, k - 1);
      var r := Advance(q, true);
      assert r.playing && r.wasRunning && r.index == k - 1 && r.sequence == b.sequence && r.length == b.sequenceLen;
    }
  }

  // ---------------------------------------------------------------------------
  // Buttons

  /** `millis() - btn.lastDebounceTime` computed in `unsigned long`. */
  function Elapsed(now: int, last: int): (e: int)
    requires 0 <= now < MillisModulus && 0 <= last < MillisModulus
    ensures 0 <= e < MillisModulus
    ensures now >= last ==> e == now - last
    ensures now < last ==> e == now + MillisModulus - last
  {
    (now - last) % MillisModulus
  }

  /** A debounce timestamp `millis()` can have produced. */
  predicate Timestamped(b: Button) {
    0 <= b.lastDebounceTime < MillisModulus
  }

  /**
   * The debounce block for one reading: a change of the raw level restarts
   * the timer; a level that has held for more than `DEBOUNCE_MS` and differs
   * from the stable one becomes the stable one, which is reported.
   */
  function Debounce(b: Button, raw: bool, now: int): (r: (Button, Option<bool>))
    requires Timestamped(b) && 0 <= now < MillisModulus
  {
    var b1 := if raw != b.lastRawState then b.(lastDebounceTime := now, lastRawState := raw) else b;
    if Elapsed(now, b1.lastDebounceTime) > DebounceMs && raw != b1.stableState then (b1.(stableState := raw), Some(raw))
    else (b1, None)
  }

  /**
   * The stable level changes only when the raw reading equals the last raw
   * reading and that reading has held for more than `DEBOUNCE_MS`; then it
   * becomes the raw reading. The wiring never changes, and the raw level is
   * always remembered.
   */
  lemma DebounceChanges(b: Button, raw: bool, now: int)
    requires Timestamped(b) && 0 <= now < MillisModulus
    ensures var (b', edge) := Debounce(b, raw, now);
      && (edge.Some? <==> raw == b.lastRawState && Elapsed(now, b.lastDebounceTime) > DebounceMs && raw != b.stableState)
      && (edge.Some? ==> edge.value == raw && b'.stableState == raw)
      && (edge.None? ==> b'.stableState == b.stableState)
      && b'.lastRawState == raw && SameWiring(b', b) && Timestamped(b')
  {
    assert Elapsed(now, now) == 0;
  }

  /** The line sent to the controller after a short press of a playing button. */
  function PressMessage(pin: int): seq<string> {
    if pin == Pin1 then ["BTN-Star_Spangled_Banner"]
    else if pin == Pin2 then ["BTN-TAPS"]
    else if pin == Pin3 then ["BTN-First_Call"]
    else if pin == Pin4 then ["BTN-Retreat"]
    else []
  }

  /** What a button other than the stop and switch buttons needs. */
  predicate Wired(b: Button) {
    b.pin != Pin5 && b.pin != Pin6 ==> Playable(b)
  }

  /**
   * What `loop()` does once a button's stable level changed: a press only
   * reports the switch; a release reports the switch, or stops everything,
   * or starts the button's playback and names it.
   */
  function Event(p: Playback, b: Button, released: bool, running: bool): (r: (Playback, seq<string>))
    requires Consistent(p) && Wired(b)
    ensures Consistent(r.0)
    ensures !released ==> r.0 == p && r.1 == (if b.pin == Pin6 then ["Auto_Sunset_ON"] else [])
    ensures released && b.pin == Pin5 ==> !r.0.playing && r.0.sequence.None? && r.1 == ["Press_Stop"]
  {
    if !released then (p, if b.pin == Pin6 then ["Auto_Sunset_ON"] else [])
    else if b.pin == Pin6 then (p, ["Auto_Sunset_OFF"])
    else if b.pin == Pin5 then (StopAll(p), ["Press_Stop"])
    else (Start(p, b, running), PressMessage(b.pin))
  }

  /** The switch button sends its position both ways and touches nothing else. */
  lemma SwitchButton(p: Playback, b: Button, released: bool, running: bool)
    requires Consistent(p) && b.pin == Pin6
    ensures Event(p, b, released, running) == (p, [if released then "Auto_Sunset_OFF" else "Auto_Sunset_ON"])
  {
  }

  // ---------------------------------------------------------------------------
  // Serial commands

  /**
   * The button a line received on the second serial port presses: after
   * `trim()`, a first character `'0'`..`'3'` selects `buttons[0]`..`buttons[3]`.
   * An empty line reads as character 0 (`String::operator[]` past the end)
   * and selects nothing.
   */
  function Command(line: string): (k: Option<nat>)
    ensures k.Some? ==> k.value < 4
    ensures k.Some? <==> Strip(line) != [] && '0' <= Strip(line)[0] <= '3'
    ensures k.Some? ==> Strip(line)[0] == "0123"[k.value]
  {
    var t := Strip(line);
    var c := if t == [] then 0 as char else t[0];
    if '0' <= c <= '3' then Some(c as int - '0' as int) else None
  }

  /** A line with no whitespace at either end selects by its first character alone. */
  lemma CommandFirst(line: string)
    requires line != [] && !IsSpace(line[0]) && !IsSpace(line[|line| - 1])
    ensures Command(line) == if '0' <= line[0] <= '3' then Some(line[0] as int - '0' as int) else None
  {
    StripByUnchanged(line, IsSpace);
  }

  /** A line of whitespace only, the empty line included, selects nothing. */
  lemma CommandBlank(line: string)
    requires forall i :: 0 <= i < |line| ==> IsSpace(line[i])
    ensures Command(line) == None
  {
    TrimLeftSuffix(line, IsSpace);
    assert TrimLeft(line, IsSpace) == [];
  }

  /** Surrounding whitespace, such as the `\r` of a `println`, is ignored. */
  lemma CommandTrims(before: char, digit: char, after: char)
    requires IsSpace(before) && IsSpace(after) && '0' <= digit <= '3'
    ensures Command([before, digit, after]) == Some(digit as int - '0' as int)
  {
    var s := [before, digit, after];
    assert s[1..] == [digit, after];
    TrimLeftStops([digit, after], IsSpace);
    assert TrimLeft(s, IsSpace) == [digit, after];
    assert [digit, after][..1] == [digit];
    TrimRightStops([digit], IsSpace);
    assert TrimRight([digit, after], IsSpace) == [digit];
  }

  // ---------------------------------------------------------------------------
  // One pass of loop()

  /** Everything `loop()` changes: the playback state, the buttons and the lines sent so far. */
  datatype Model = Model(playback: Playback, buttons: seq<Button>, sent: seq<string>)

  /** The buttons keep their wiring and carry timestamps, and the playback state is consistent. */
  predicate Good(m: Model) {
    |m.buttons| == 6
    && (forall i :: 0 <= i < 6 ==> SameWiring(m.buttons[i], InitialButtons()[i]) && Timestamped(m.buttons[i]))
    && Consistent(m.playback)
  }

  /** The firmware's state after `setup()`. */
  function InitialModel(): (m: Model)
    ensures Good(m)
  {
    Model(Playback(None, 0, 0, false, false, None), InitialButtons(), [])
  }

  /** The initial buttons other than the stop and switch buttons can play. */
  lemma InitialWired(i: nat)
    requires i < 6
    ensures Wired(InitialButtons()[i])
    ensures (InitialButtons()[i].pin == Pin5) == (i == 4) && (InitialButtons()[i].pin == Pin6) == (i == 5)
  {
  }

  /** The loop body for `buttons[i]` with raw reading `raw`. */
  function ServiceOne(m: Model, i: nat, raw: bool, now: int, running: bool): (m': Model)
    requires Good(m) && i < 6 && 0 <= now < MillisModulus
    ensures Good(m')
  {
    var (b, edge) := Debounce(m.buttons[i], raw, now);
    DebounceChanges(m.buttons[i], raw, now);
    InitialWired(i);
    var buttons := m.buttons[i := b];
    if edge.None? then m.(buttons := buttons)
    else
      var (p, lines) := Event(m.playback, b, edge.value, running);
      Model(p, buttons, m.sent + lines)
  }

  /** The for-loop over the buttons, up to (not including) `buttons[k]`. */
  function ServiceAll(m: Model, raws: seq<bool>, now: int, running: bool, k: nat): (m': Model)
    requires Good(m) && k <= 6 <= |raws| && 0 <= now < MillisModulus
    ensures Good(m')
    decreases k
  {
    if k == 0 then m else ServiceOne(ServiceAll(m, raws, now, running, k - 1), k - 1, raws[k - 1], now, running)
  }

  /**
   * One pass of `loop()`: the six buttons with their raw readings, the
   * end-of-track check with `nowRunning`, then the serial line if one came
   * in, which is always answered with `ACK`. `running` is what the audio
   * library reports after a track is opened.
   */
  function Pass(m: Model, raws: seq<bool>, now: int, running: bool, nowRunning: bool, line: Option<string>): (m': Model)
    requires Good(m) && |raws| == 6 && 0 <= now < MillisModulus
    ensures Good(m')
  {
    var m1 := ServiceAll(m, raws, now, running, |raws|);
    Received(m1.(playback := Advance(m1.playback, nowRunning)), line, running)
  }

  /** The serial block of `loop()`: the command, if any, then the acknowledgement. */
  function Received(m: Model, line: Option<string>, running: bool): (m': Model)
    requires Good(m)
    ensures Good(m')
  {
    if line.None? then m
    else
      var k := Command(line.value);
      var p := if k.Some? then (InitialWired(k.value); Start(m.playback, m.buttons[k.value], running)) else m.playback;
      m.(playback := p, sent := m.sent + ["ACK"])
  }

  /**
   * A serial digit plays like a release of the button it names, but only
   * `ACK` goes back; any other line changes nothing but the acknowledgement.
   */
  lemma SerialPressesButton(m: Model, line: string, running: bool)
    requires Good(m)
    ensures var m' := Received(m, Some(line), running);
      && m'.sent == m.sent + ["ACK"] && m'.buttons == m.buttons
      && (Command(line).Some? ==> m'.playback == Event(m.playback, m.buttons[Command(line).value], true, running).0)
      && (Command(line).None? ==> m'.playback == m.playback)
  {
    if Command(line).Some? {
      InitialWired(Command(line).value);
    }
  }

  // ---------------------------------------------------------------------------
  // The firmware's globals

  class Player {
    var sequence: Option<seq<string>>
    var index: int
    var length: int
    var playing: bool
    var trackWasRunning: bool
    var track: Option<string>
    var sent: seq<string>
    const buttons: array<Button>

    function Playing(): Playback
      reads this
    {
      Playback(sequence, index, length, playing, trackWasRunning, track)
    }

    function State(): Model
      reads this, buttons
    {
      Model(Playing(), buttons[..], sent)
    }

    predicate Valid()
      reads this, buttons
    {
      buttons.Length == 6 && Good(State())
    }

    constructor()
      ensures fresh(buttons)
      ensures Valid() && State() == InitialModel()
    {
      sequence, index, length, playing, trackWasRunning, track := None, 0, 0, false, false, None;
      sent := [];
      var bs := InitialButtons();
      buttons := new Button[6] [bs[0], bs[1], bs[2], bs[3], bs[4], bs[5]];
      new;
      assert buttons[..] == bs;
    }

    method PlayNextInSequence(running: bool)
      requires Aligned(Playing())
      modifies this`playing, this`sequence, this`track, this`trackWasRunning
      ensures Playing() == PlayNext(old(Playing()), running)
    {
      if playing && sequence.Some? && index < length {
        track := Some(sequence.value[index]);
        trackWasRunning := running;
      } else {
        playing := false;
        sequence := None;
      }
    }

    method StartAudioPlayback(b: Button, running: bool)
      requires Aligned(Playing()) && Playable(b)
      modifies this`playing, this`sequence, this`track, this`trackWasRunning, this`index, this`length
      ensures Playing() == Start(old(Playing()), b, running)
    {
      track := None;
      if b.starter {
        sequence := b.sequence;
        length := b.sequenceLen;
        index := 0;
        playing := true;
        PlayNextInSequence(running);
      } else {
        track := b.direct;
        playing := false;
        sequence := None;
        trackWasRunning := running;
      }
    }

    /** The body of the for-loop for `buttons[i]`. */
    method ServiceButton(i: nat, raw: bool, now: int, running: bool)
      requires Valid() && i < 6 && 0 <= now < MillisModulus
      modifies this, buttons
      ensures Valid()
      ensures State() == ServiceOne(old(State()), i, raw, now, running)
    {
      InitialWired(i);
      DebounceChanges(buttons[i], raw, now);
      var btn, changed := DebounceButton(i, raw, now);
      if changed {
        OnStableChange(btn, running);
      }
    }

    /** The debounce block: the new state of `buttons[i]`, and whether its stable level changed. */
    method DebounceButton(i: nat, raw: bool, now: int) returns (btn: Button, changed: bool)
      requires i < buttons.Length && Timestamped(buttons[i]) && 0 <= now < MillisModulus
      modifies buttons
      ensures (btn, if changed then Some(raw) else None) == Debounce(old(buttons[i]), raw, now)
      ensures buttons[..] == old(buttons[..])[i := btn]
    {
      btn := buttons[i];
      if raw != btn.lastRawState {
        btn := btn.(lastDebounceTime := now, lastRawState := raw);
        buttons[i] := btn;
      }
      changed := false;
      if (now - btn.lastDebounceTime) % MillisModulus > DebounceMs {
        if raw != btn.stableState {
          btn := btn.(stableState := raw);
          buttons[i] := btn;
          changed := true;
        }
      }
    }

    /** What follows a change of `btn`'s stable level. */
    method OnStableChange(btn: Button, running: bool)
      requires Consistent(Playing()) && Wired(btn)
      modifies this
      ensures Playing() == Event(old(Playing()), btn, btn.stableState, running).0
      ensures sent == old(sent) + Event(old(Playing()), btn, btn.stableState, running).1
    {
      if btn.stableState == Low {
        if btn.pin == Pin6 {
          sent := sent + ["Auto_Sunset_ON"];
        }
      } else {
        if btn.pin == Pin6 {
          sent := sent + ["Auto_Sunset_OFF"];
        } else if btn.pin == Pin5 {
          sent := sent + ["Press_Stop"];
          track := None;
          playing := false;
          sequence := None;
        } else {
          StartAudioPlayback(btn, running);
          sent := sent + PressMessage(btn.pin);
        }
      }
    }

    /** The end-of-track block. */
    method AdvanceSequence(nowRunning: bool)
      requires Valid()
      modifies this`playing, this`sequence, this`track, this`trackWasRunning, this`index
      ensures Valid()
      ensures State() == old(State()).(playback := Advance(old(Playing()), nowRunning))
    {
      if playing {
        if trackWasRunning && !nowRunning {
          index := index + 1;
          if index < length {
            PlayNextInSequence(nowRunning);
          } else {
            playing := false;
            sequence := None;
          }
        }
        trackWasRunning := nowRunning;
      }
    }

    /** `loop()`: `raws[i]` is `digitalRead(buttons[i].pin)`, `now` is `millis()`, `line` what `Serial2` delivered. */
    method Loop(raws: seq<bool>, now: int, running: bool, nowRunning: bool, line: Option<string>)
      requires Valid() && |raws| == 6 && 0 <= now < MillisModulus
      modifies this, buttons
      ensures Valid()
      ensures State() == Pass(old(State()), raws, now, running, nowRunning, line)
    {
      ServiceButtons(raws, now, running);
      AdvanceSequence(nowRunning);
      HandleSerial(line, running);
    }

    /** The for-loop over the six buttons. */
    method ServiceButtons(raws: seq<bool>, now: int, running: bool)
      requires Valid() && |raws| == 6 && 0 <= now < MillisModulus
      modifies this, buttons
      ensures Valid()
      ensures State() == ServiceAll(old(State()), raws, now, running, |raws|)
    {
      ghost var m := State();
      for i := 0 to |raws|
        invariant Valid()
        invariant State() == ServiceAll(m, raws, now, running, i)
      {
        ServiceButton(i, raws[i], now, running);
      }
    }

    /** The serial block. */
    method HandleSerial(line: Option<string>, running: bool)
      requires Valid()
      modifies this
      ensures Valid()
      ensures State() == Received(old(State()), line, running)
    {
      if line.Some? {
        var received := Strip(line.value);
        var c := if |received| == 0 then 0 as char else received[0];
        if '0' <= c <= '3' {
          PlayButton(c as int - '0' as int, running);
        }
        sent := sent + ["ACK"];
      }
    }

    /** `startAudioPlayback(buttons[k])` for a serial command. */
    method PlayButton(k: nat, running: bool)
      requires Valid() && k < 4
      modifies this`playing, this`sequence, this`track, this`trackWasRunning, this`index, this`length
      ensures Valid()
      ensures State() == old(State()).(playback := Start(old(Playing()), buttons[k], running))
    {
      InitialWired(k);
      assert SameWiring(buttons[k], InitialButtons()[k]);
      StartAudioPlayback(buttons[k], running);
    }
  }
}
