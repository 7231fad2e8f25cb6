# Colors machine, modelled in Dafny

The Colors machine plays bugle calls on a fixed daily schedule. It has three parts:

- **Clock controller.** A MicroPython ESP32 keeps the time for the whole machine.
  - Its sources of time are NTP with host fallback, a battery-backed DS3231, and a manual setting.
  - It applies the United States daylight-saving rule.
  - It looks up each day's sunset in a CSV table.
  - It sends one serial command per daily action to the sound board, at 07:55, 08:00, five minutes before sunset, sunset and 22:00.
  - It flips its sunset switch when the sound board asks it to.
  - While it has no WiFi profile it runs a captive configuration portal. The portal decodes form values, stores WiFi profiles and can set the clock by hand.
- **Sound board.** An Arduino ESP32 debounces six buttons.
  - Buttons play single tracks, start two-track sequences, or stop playback.
  - The switch button reports its position to the controller.
  - Finished tracks advance the running sequence.
  - A received digit 0–3 acts as a button press.
- **Audio monitor.** A desktop script records each of the five daily events once per date. Each recording window opens ten seconds early and closes a minute after the event.

The project is ten modules:

| module | contents |
|---|---|
| `Wrappers` | `Option` |
| `Text` | Python's `strip`, `split`, `join`, `int` and `str` on text |
| `Calendar` | the proleptic Gregorian day count |
| `Logs` | occurrence counts in emitted logs |
| `TimeLogic` | `controller/time_logic.py` |
| `SunsetTable` | `controller/sunset.py` |
| `AudioMonitor` | `audio_monitor.py` |
| `ControllerMain` | `controller/main.py` |
| `WifiMgr` | `controller/wifimgr.py` |
| `Mp3Player` | `mp3_player/src/main.cpp` |

Each module follows the form of its source:

- Pure computations are functions with lemmas about them.
- Loops are methods with invariants, proved against those functions.
- State that a source updates in place is a class whose methods tie the new state to a specification function:
  - `TimeLogic.Clocks`: the RTC, the DS3231 and the NTP host;
  - `AudioMonitor.Monitor`: the monitor's dictionary of flags;
  - `ControllerMain.Controller`: the main loop's variables;
  - `Mp3Player.Player`: the firmware's globals and its `buttons[]` array.

Clocks, files, the network, the serial ports and the audio library are parameters:

- a clock reading is an integer;
- a file is its sequence of lines, or `None` when it cannot be opened;
- the network is a record of what it answers;
- a serial line is an optional string;
- `audio.isRunning()` is a boolean input.

## Model

| member | source | states |
|---|---|---|
| Text.TrimLeft | controller/sunset.py:20 | The left half of `strip()`: only droppable characters are removed, and what is kept starts with one that is not droppable. |
| Text.TrimRight | controller/sunset.py:20 | The mirror image for the right end of the text. |
| Text.TrimLeftSuffix | controller/sunset.py:20 | What the left half of `strip()` keeps is a suffix of the input. |
| Text.TrimRightPrefix | controller/sunset.py:20 | What the right half of `strip()` keeps is a prefix of the input. |
| Text.Strip | controller/sunset.py:20 | Definition of `strip()`; its halves are TrimLeft and TrimRight. |
| Text.Split | controller/sunset.py:20 | `split(sep)` always yields at least one part. |
| Text.SplitNoSeparator | controller/wifimgr.py:217-218 | Text without the separator splits into itself alone. |
| Text.SplitSingle | controller/wifimgr.py:217-218 | When a split has a single part, that part is the whole text. |
| Text.SplitJoin | controller/wifimgr.py:68 | `split(sep)` undoes `sep.join(parts)` when no part contains `sep`. |
| Text.DecimalDigits | controller/sunset.py:21-22 | `str(n)` is digits without a superfluous leading zero, and they denote `n`. |
| Text.ParseInt | controller/sunset.py:21-22 | Definition of `int()` in base 10; its property is ParseIntString. |
| Text.ParseIntString | controller/sunset.py:21-22 | `int(str(i)) == i` for every integer, negative ones included. |
| Calendar.NextDate | audio_monitor.py:16-18 | The next calendar day of a valid date is a valid date. |
| Calendar.NextDateCount | audio_monitor.py:16-18 | The day count rises by exactly one from each date to the next. |
| Calendar.DayCountMonotone | audio_monitor.py:16-18 | A later date has a larger day count. |
| TimeLogic.Weekday | controller/time_logic.py:78-84 | Sakamoto's formula yields 0..6 for every month the table index accepts. |
| TimeLogic.WeekdayIsCalendarWeekday | controller/time_logic.py:78-84 | Sakamoto's value is the actual weekday (0 = Sunday) of every Gregorian date. |
| TimeLogic.MonthKeyAgainstTable | controller/time_logic.py:80 | Each month key differs from the days before that month by whole weeks (after a year's shift for March onwards). |
| TimeLogic.NthWeekdayOfMonth | controller/time_logic.py:87-94 | Definition; its properties are NthWeekdayFound and FindNthWeekdayOfMonth. |
| TimeLogic.FindNthWeekdayOfMonth | controller/time_logic.py:87-94 | The scan of days 1..7 with its early return computes the n-th-weekday function. |
| TimeLogic.NthWeekdayFound | controller/time_logic.py:87-94 | There is a result iff the target is a weekday 0..6. The result falls on the target, `n - 1` weeks after the first such day, and that day is in 1..7 with no earlier day on the target. |
| TimeLogic.FirstWeekdayOfMonth | controller/time_logic.py:91-93 | Every weekday occurs among days 1..7, and the loop finds its first occurrence. |
| TimeLogic.DstStartDay | controller/time_logic.py:102 | The start day is the second Sunday of March. It lies in 8..14, is a Sunday, and no earlier day in 8..14 is. |
| TimeLogic.DstEndDay | controller/time_logic.py:103 | The end day is the first Sunday of November: a Sunday in 1..7 with no earlier Sunday. |
| TimeLogic.Pack | controller/time_logic.py:110-114 | Definition; its property is PackOrdersLexicographically. |
| TimeLogic.IsDstUs | controller/time_logic.py:97-114 | Definition; properties in IsDstUsMatchesRule, SpringForward, FallBack and DstBySeason. |
| TimeLogic.PackOrdersLexicographically | controller/time_logic.py:110-114 | With two-digit day and hour fields, comparing the packed integers is comparing (month, day, hour) lexicographically. |
| TimeLogic.IsDstUsMatchesRule | controller/time_logic.py:97-114 | `is_dst_us` holds iff the hour lies between 02:00 on the second Sunday of March and 01:00 standard time on the first Sunday of November (both directions). |
| TimeLogic.SpringForward | controller/time_logic.py:97-114 | On the second Sunday of March, standard hour 1 is not daylight time; hours 2 and 3 are. |
| TimeLogic.FallBack | controller/time_logic.py:105-107 | On the first Sunday of November, standard hour 0 is still daylight time; hours 1 and 2 are not. |
| TimeLogic.DstBySeason | controller/time_logic.py:97-114 | No hour in January or December is daylight time; every hour from April to October is. |
| TimeLogic.LocalTimeWithOptionalDst | controller/time_logic.py:117-127 | The result is the offset local time or that time one hour later; LocalTimeFollowsRule says which. |
| TimeLogic.LocalTimeFollowsRule | controller/time_logic.py:117-127 | With DST enabled, the result is one hour ahead of standard local time exactly when the standard-time reading lies between 02:00 on the second Sunday of March and 01:00 standard time on the first Sunday of November. Otherwise, and always without DST, it is standard local time. |
| TimeLogic.MinutesPastMidnight | controller/time_logic.py:159-162 | For a valid time the count is in 0..1439, and its hour and minute can be recovered from it. |
| TimeLogic.CurrentMinutesPastMidnight | controller/time_logic.py:159-162 | For a valid DST-adjusted local time, the minute of the day is in 0..1439 and gives back that time's hour and minute. |
| TimeLogic.Pad2Digits | controller/time_logic.py:69 | `{n:02d}` of 0..99 is exactly two digits that read back as `n`. |
| TimeLogic.FormatTimeStr | controller/time_logic.py:66-69 | Definition; its property is FormatTimeShape. |
| TimeLogic.FormatDateStr | controller/time_logic.py:72-75 | Definition; its property is FormatDateShape. |
| TimeLogic.FormatTimeShape | controller/time_logic.py:66-69 | `HH:MM:SS`: 8 characters, colons at 2 and 5, and each digit pair reads back as its field. |
| TimeLogic.FormatDateShape | controller/time_logic.py:72-75 | `MM/DD/YYYY`: 10 characters, slashes at 2 and 5, and the fields read back. |
| TimeLogic.GmTime | controller/time_logic.py:26 | `gmtime()` after the RTC was set reports a weekday in 0..6. |
| TimeLogic.FirstReachable | controller/time_logic.py:20-36 | The chosen host is the first in list order that answers; there is none exactly when no host answers. |
| TimeLogic.FirstReachableAt | controller/time_logic.py:20-30 | A host that answers, with no earlier host answering, is the one chosen. |
| TimeLogic.RestoredTime | controller/time_logic.py:52-55 | Definition; properties in ManualTimeRestored and SyncedTimeRestored. |
| TimeLogic.ManualDurableTime | controller/time_logic.py:136-144 | The DS3231 gets the given fields, yearday 0, and the actual calendar weekday as 1..7 with 1 = Sunday. |
| TimeLogic.ManualRtcTime | controller/time_logic.py:146-152 | The RTC gets the given fields and a weekday 0..6 that equals what `gmtime()` reports (0 = Monday). |
| TimeLogic.ManualTimeRestored | controller/time_logic.py:136-152 | Restoring (lines 52-55) a manually set DS3231 gives the RTC the fields that were set and subsecond 0. Its weekday is counted from Sunday, so it is one day later than the Monday-based weekday `set_manual_time` writes to the RTC directly, and never equal to it. |
| TimeLogic.SyncedTimeRestored | controller/time_logic.py:26-28 | Restoring (lines 52-55) what `sync_ntp_time` wrote gives the RTC the network's date and time. The weekday is `gmtime()`'s Monday-based one less one, so Monday comes back as -1, and `subsecond` receives the day of the year. |
| TimeLogic.Clocks.constructor | controller/time_logic.py:12-13 | The clocks start with the given RTC and DS3231 contents, and no host has been tried. |
| TimeLogic.Clocks.SyncNtpTime | controller/time_logic.py:15-36 | Success iff some host answers. On success the hosts up to the first responder have been tried, then the RTC is set from the network and the DS3231 from `gmtime()`. On failure every host was tried, `ntptime.host` is left at the last one, and both clocks are unchanged. |
| TimeLogic.Clocks.RestoreFromDurable | controller/time_logic.py:38-63 | Success iff the DS3231 is readable with a year after 2024. Only then is the RTC set, from the DS3231. |
| TimeLogic.Clocks.SetManualTime | controller/time_logic.py:130-157 | Success iff the month is indexable and both writes succeed. The DS3231 is written first; a failed RTC write leaves the DS3231 written. |
| SunsetTable.DayNumber | controller/sunset.py:7-12 | The day number `n` is the floor: the instant lies in the `n`-th 86400-second day since the start. |
| SunsetTable.DayNumberUnique | controller/sunset.py:7-12 | Those bounds determine the day number. |
| SunsetTable.DayNumberAtStart | controller/sunset.py:4-12 | The first 86400 seconds from the start instant are all day 0. |
| SunsetTable.DayNumberStep | controller/sunset.py:9-12 | 86400 seconds later is exactly one day later. |
| SunsetTable.SunsetMinutes | controller/sunset.py:14-26 | Definition; properties in GetSunsetMinutes, HeaderIgnored and TableFileLookup. |
| SunsetTable.ScanRows | controller/sunset.py:19-23 | Definition; properties in ScanStep, FirstStop, ScanRowsMeaning and TableLookup. |
| SunsetTable.LineRows | controller/sunset.py:19-20 | One row of fields per line. |
| SunsetTable.GetSunsetMinutes | controller/sunset.py:14-26 | The loop with its early returns computes the sunset lookup. Its `None` cases are a missing file, an empty file, no matching row, and a raised `ValueError`. |
| SunsetTable.ScanStep | controller/sunset.py:19-22 | One turn of the loop: skip a row that is not two fields or is another day, raise on an unparsable field, stop at the day's row. |
| SunsetTable.HeaderIgnored | controller/sunset.py:18 | The first line is skipped whatever it holds. |
| SunsetTable.FirstStop | controller/sunset.py:19-21 | The scan passes over exactly the rows before the first row that is not skippable. |
| SunsetTable.ScanRowsMeaning | controller/sunset.py:19-26 | The first row that is not skippable decides the scan: none means no match, the day's row with an integer second field means that sunset, anything else raises. |
| SunsetTable.IntStringShape | controller/sunset.py:20 | `str(i)` is non-empty, has no comma, and has no whitespace at either end. |
| SunsetTable.TableLineFields | controller/sunset.py:20 | `strip().split(',')` of a line `day,minutes\n` gives back the two numbers' texts. |
| SunsetTable.TableLookup | controller/sunset.py:19-23 | In a table written from integer pairs, the scan finds the first entry for the day, or nothing. |
| SunsetTable.TableFileLookup | controller/sunset.py:14-26 | The same holds for the whole file, header included. |
| SunsetTable.SunsetTimeTuple | controller/sunset.py:28-56 | There is a result iff the lookup finds a sunset. The result has today's local date, hour and minute summing to the sunset minutes with minute in 0..59, and zeros elsewhere. |
| AudioMonitor.DayNumber | audio_monitor.py:16-18 | Definition; its properties are DayNumberNext and DayNumberOrder. |
| AudioMonitor.DayNumberNext | audio_monitor.py:16-18 | The start date is day 0, and each next date is one day more. |
| AudioMonitor.DayNumberOrder | audio_monitor.py:16-18 | Earlier dates have smaller day numbers. |
| AudioMonitor.GetSunsetMinutes | audio_monitor.py:20-31 | The loop over the rows after the header computes the lookup, with the same cases as the controller's. |
| AudioMonitor.SunsetMinutes | audio_monitor.py:20-31 | Definition; its property is GetSunsetMinutes. |
| AudioMonitor.Target | audio_monitor.py:94-123 | Definition; its property is Windows. |
| AudioMonitor.Fires | audio_monitor.py:97-123 | Definition; properties in FixedEventsIgnoreSunset, SunsetEventsNeedSunset and TickFiresOnlyInWindow. |
| AudioMonitor.AllCleared | audio_monitor.py:54-60 | Every event is present and down. |
| AudioMonitor.Windows | audio_monitor.py:94-130 | The fixed targets are 28500 s, 28800 s and 79200 s. Five minutes before an 18:00 sunset is 64500 s. A window holds its target from 10 s before to 59 s after, and no further. |
| AudioMonitor.FixedEventsIgnoreSunset | audio_monitor.py:96-107 | The fixed events do not depend on the sunset. Each fires iff its flag is down and the tick is in its window. |
| AudioMonitor.SunsetEventsNeedSunset | audio_monitor.py:109-123 | Without a sunset the two sunset events never fire. |
| AudioMonitor.CurrentSeconds | audio_monitor.py:92 | For a valid time, the seconds count is in 0..86399 and hour, minute and second can be recovered from it. |
| AudioMonitor.Initial | audio_monitor.py:54-64 | The start state has every flag present. |
| AudioMonitor.NewDay | audio_monitor.py:76-89 | The new-day block keeps every flag present; TickFiresOnlyInWindow and DateChangeResets state its effect. |
| AudioMonitor.Raise | audio_monitor.py:97-100 | A check changes no key set. |
| AudioMonitor.RaiseAll | audio_monitor.py:97-130 | The five checks keep every flag present. |
| AudioMonitor.Step | audio_monitor.py:72-130 | A pass keeps every flag present; TickFiresOnlyInWindow states what it records. |
| AudioMonitor.RaiseAllFlags | audio_monitor.py:97-130 | The checks do not interfere: each flag ends up raised iff it was up or its own check fired. |
| AudioMonitor.FiredEvents | audio_monitor.py:97-123 | Definition of the events a tick records, in the source's order; properties in FiredEventsMembers and TickFiresOnlyInWindow. |
| AudioMonitor.FiredEventsMembers | audio_monitor.py:97-130 | A pass records an event once if it fires, and not at all otherwise. |
| AudioMonitor.TickFiresOnlyInWindow | audio_monitor.py:72-130 | After any new-day reset, an event is recorded iff its flag was down and the tick lies in its window, and at most once. Afterwards its flag is up, and on the same date a raised flag is never recorded again. |
| AudioMonitor.DateChangeResets | audio_monitor.py:76-89 | A new date adopts that date and its sunset and lowers every flag. Afterwards exactly the events fired on that tick are up. |
| AudioMonitor.Run | audio_monitor.py:72-133 | A run of ticks keeps every flag present. |
| AudioMonitor.AtMostOncePerDate | audio_monitor.py:53-133 | Over ticks of one date each event is recorded at most once, and not at all if its flag is already up on that date. |
| AudioMonitor.FiresWhenWindowHit | audio_monitor.py:72-133 | If a tick of the date lands in the event's window, the event is recorded at least once. |
| AudioMonitor.ExactlyOncePerDate | audio_monitor.py:72-133 | A run over a new date reaching an event's window records that event exactly once. |
| AudioMonitor.Monitor.constructor | audio_monitor.py:54-64 | The monitor starts on today's date with today's sunset and every flag down. |
| AudioMonitor.Monitor.ClearFlags | audio_monitor.py:82-83 | Every key of the dictionary is set to false. |
| AudioMonitor.Monitor.Check | audio_monitor.py:97-100 | One event's block: it is recorded and its flag raised exactly when it fires. |
| AudioMonitor.Monitor.StartNewDay | audio_monitor.py:77-83 | The new date, its sunset, and every flag down. |
| AudioMonitor.Monitor.CheckAll | audio_monitor.py:94-130 | The five blocks in order raise the flags as `RaiseAll` states and record the events `FiredEvents` lists. |
| AudioMonitor.Monitor.CheckSunsetEvents | audio_monitor.py:109-123 | The two sunset blocks in order: each event is recorded and raised exactly when it fires, which needs a sunset. |
| AudioMonitor.Monitor.Tick | audio_monitor.py:72-133 | One pass of the loop matches `Step`, both in the new state and in the events recorded. |
| ControllerMain.HostList | controller/main.py:134-137 | The custom host comes first when set and non-empty, followed by the four default hosts in order. |
| ControllerMain.HostListOrder | controller/main.py:133-139 | A responding custom host wins. Otherwise the defaults decide, one position later; without a custom host the defaults alone decide. |
| ControllerMain.StartUp | controller/main.py:57-79 | The DS3231 is the fallback exactly when `get_connection()` finds no connection (neither already connected nor reconnecting) or no host answered. After a sync both clocks hold the network time. In the fallback the DS3231 is unchanged, and the RTC is restored from it exactly when it is readable with a year after 2024. |
| ControllerMain.EveryAction | controller/main.py:105-111 | The five keys of `action_flags` are all the actions. |
| ControllerMain.Code | controller/main.py:172-190 | Definition of the command written per action; its property is Schedule. |
| ControllerMain.Schedule | controller/main.py:172-190 | The codes "2", "0", "2", "3", "1" and their minutes 475, 480, sunset - 5, sunset, 1320. |
| ControllerMain.Target | controller/main.py:172-190 | Definition; its property is Schedule. |
| ControllerMain.Fires | controller/main.py:172-190 | Definition; properties in FiresWhen and StepSends. |
| ControllerMain.FiresWhen | controller/main.py:172-190 | A fixed action ignores the sunset and the switch. A sunset action is never sent without a sunset or with the switch off. |
| ControllerMain.Raise | controller/main.py:172-174 | A check keeps the key set. |
| ControllerMain.RaiseAll | controller/main.py:172-190 | The five checks keep every flag present. |
| ControllerMain.RaiseAllFlags | controller/main.py:172-190 | Each flag ends up raised iff it was up or its own check sent it. |
| ControllerMain.FiredActions | controller/main.py:172-190 | Definition of the actions a pass sends, in the source's order; properties in FiredActionsMembers and StepSends. |
| ControllerMain.FiredActionsMembers | controller/main.py:172-190 | A pass sends an action once if it fires, and not at all otherwise. |
| ControllerMain.Cleared | controller/main.py:105-111 | Every action is present and down. |
| ControllerMain.ClearedIs | controller/main.py:201-202 | Any map with every action present and down is that initial map. |
| ControllerMain.Initial | controller/main.py:82-111 | The loop starts with every flag present. |
| ControllerMain.Cadence | controller/main.py:128-162 | The connectivity part changes only the two timestamps. |
| ControllerMain.CadenceTimestamps | controller/main.py:128-162 | While connected, the hour restarts after each hourly attempt, successful or not. While disconnected, the retry restarts every 30 minutes, and the hour restarts only when the reconnect and the sync both succeed. |
| ControllerMain.NoSyncWithinTheHour | controller/main.py:129-143 | After an hourly sync, no sync is attempted within the next hour while connected. |
| ControllerMain.Toggle | controller/main.py:242-243 | Definition; properties in ToggleLines and StatusLinesDoNotToggle. |
| ControllerMain.ToggleLines | controller/main.py:242-243 | The switch flips iff the stripped line is "Auto_Sunset_Toggle", and a second such line flips it back. |
| ControllerMain.StatusLinesDoNotToggle | controller/main.py:242-243 | The lines the sound board actually sends, "Auto_Sunset_ON" and "Auto_Sunset_OFF", leave the switch as it is. |
| ControllerMain.Step | controller/main.py:127-243 | A pass keeps every flag present; StepSends states what it sends. |
| ControllerMain.Complete | controller/main.py:193-215 | The completion check keeps every flag present. |
| ControllerMain.StepSends | controller/main.py:172-215 | An action is sent iff its flag was down, the minute is its target and (for a sunset action) the switch is on; at most once. Afterwards its flag is up, unless the pass completed the day, in which case every flag is down and the sunset is reloaded. |
| ControllerMain.CompletesWithLastAction | controller/main.py:193 | The reset happens exactly on the pass that sends the last action still due. |
| ControllerMain.Run | controller/main.py:115-250 | A run of passes keeps every flag present. |
| ControllerMain.ResetResends | controller/main.py:193-205 | As written, 22:00 is sent on the pass that completes the day, the flags are reset, and the next pass in the same minute sends it again. |
| ControllerMain.LastActionCompletes | controller/main.py:188-202 | At minute 1320, with only 22:00 still due, the pass sends it and resets everything. |
| ControllerMain.FreshPassAt2200 | controller/main.py:188-190 | With all flags down at minute 1320 and the sunset earlier, the pass sends 22:00 and nothing else. |
| ControllerMain.StuckStep | controller/main.py:180-193 | A state whose fixed flags are up and whose sunset flags can never rise sends nothing, and stays that way. |
| ControllerMain.StuckForever | controller/main.py:193 | As written, after a day without a sunset (or with the switch off), no action is ever sent again unless a toggle arrives. |
| ControllerMain.DatedStep | controller/main.py:201-205 | The corrected pass resets on a change of day and records that day. |
| ControllerMain.DatedRun | controller/main.py:201-205 | A run of corrected passes keeps every flag present. |
| ControllerMain.DatedStepSends | controller/main.py:172-205 | In the corrected pass the send rule is that of the source, applied after the reset for a new day. |
| ControllerMain.DatedAtMostOncePerDay | controller/main.py:172-205 | With a date-keyed reset, each action is sent at most once per day. |
| ControllerMain.DatedFixedFiresEachDay | controller/main.py:172-202 | With a date-keyed reset, each fixed action is sent every day a pass lands on its minute. |
| ControllerMain.Controller.constructor | controller/main.py:82-111 | Both timestamps are now, today's sunset is loaded, the flags are down and the switch is on. |
| ControllerMain.Controller.KeepInSync | controller/main.py:128-162 | The timestamps follow the cadence. The clocks are untouched unless a sync is attempted. A successful sync sets the RTC from the network and the DS3231 from `gmtime()`; a failed one leaves both unchanged. |
| ControllerMain.Controller.Check | controller/main.py:172-174 | One action's block: it is sent and its flag raised exactly when it fires. |
| ControllerMain.Controller.CheckActions | controller/main.py:172-190 | The five blocks in order raise the flags as `RaiseAll` states and send the actions `FiredActions` lists. |
| ControllerMain.Controller.CheckSunsetActions | controller/main.py:180-186 | The two sunset blocks, under their shared conditions. |
| ControllerMain.Controller.ClearFlags | controller/main.py:201-202 | Every flag is lowered. |
| ControllerMain.Controller.ResetIfDone | controller/main.py:193-215 | The completion check matches `Complete`, and keeps `five_min_before_sunset` at the reloaded sunset less 5. |
| ControllerMain.Controller.Tick | controller/main.py:127-243 | One pass matches `Step`, both in the new state and in the actions sent. The clocks change only through the pass's sync attempt, as in KeepInSync. |
| ControllerMain.Controller.ActionsAndReset | controller/main.py:172-215 | The five checks as `RaiseAll` states, then the completion check as `Complete` states; the actions sent are those `FiredActions` lists. |
| ControllerMain.Controller.ReadLine | controller/main.py:231-243 | The switch after the serial block. |
| WifiMgr.HexDigitValue | controller/wifimgr.py:223 | The value of a hexadecimal digit is below 16. |
| WifiMgr.HexDigit | controller/wifimgr.py:223 | Writing a digit and reading it back gives the value. |
| WifiMgr.PairLength | controller/wifimgr.py:223 | `len(item[:2])` is at most 2, and is the whole item when the item is shorter. |
| WifiMgr.Unquote | controller/wifimgr.py:208-226 | Definition; properties in UnquotePlain, UnquoteEncode and PlusNotDecoded. |
| WifiMgr.UnquoteAll | controller/wifimgr.py:216-226 | Definition; properties in UnquoteIsUnquoteAll, UnquoteKept and UnquoteAfterPercent. |
| WifiMgr.DecodeItem | controller/wifimgr.py:222-225 | Definition; properties in DecodeHexPair, DecodeNonHex, DecodeTrailingUnderscore and DecodeNegative. |
| WifiMgr.UnquoteLoop | controller/wifimgr.py:208-226 | The loop with its early returns computes `unquote`. |
| WifiMgr.DecodeSegments | controller/wifimgr.py:220-226 | The loop appends the decoded segments in order to the first one. |
| WifiMgr.DecodeSegment | controller/wifimgr.py:222-225 | The `try` body for one segment, or its `except`. |
| WifiMgr.UnquoteIsUnquoteAll | controller/wifimgr.py:210-218 | The early returns agree with the general case on every string. |
| WifiMgr.UnquotePlain | controller/wifimgr.py:210-218 | Empty or `None` input gives empty output, and text without `%` is returned unchanged. |
| WifiMgr.DigitRun | controller/wifimgr.py:223 | The run `int(_, 16)` consumes is the longest prefix of hexadecimal digits and underscores. |
| WifiMgr.HexParse | controller/wifimgr.py:223 | Definition of MicroPython's `int(_, 16)`; properties in HexPairParses and the HexParse lemmas below. |
| WifiMgr.HexPairParses | controller/wifimgr.py:223 | Two hexadecimal digits parse to their value. |
| WifiMgr.HexParseTrailingUnderscore | controller/wifimgr.py:223 | An underscore after the digit is skipped: `1_` reads as 1. |
| WifiMgr.HexParseLeadingUnderscore | controller/wifimgr.py:223 | An underscore before the digit is skipped: `_1` reads as 1. |
| WifiMgr.HexParseUnderscoreAlone | controller/wifimgr.py:223 | An underscore alone consumes a character but no digit, and reads as 0. |
| WifiMgr.HexParseBarePrefix | controller/wifimgr.py:223 | `0x` is taken as a prefix and leaves no digit, so it raises. |
| WifiMgr.HexParseNegative | controller/wifimgr.py:223 | A minus sign negates: `-1` reads as -1. |
| WifiMgr.DecodeTrailingUnderscore | controller/wifimgr.py:222-223 | `%1_` decodes to byte 1, and the rest of the segment follows. |
| WifiMgr.DecodeNegative | controller/wifimgr.py:222-225 | `%-1` parses, but `bytes([-1])` raises, so the `%` is kept. |
| WifiMgr.DecodeHexPair | controller/wifimgr.py:223 | A segment starting with two hexadecimal digits becomes that byte followed by the rest of the segment. |
| WifiMgr.DecodeNonHex | controller/wifimgr.py:224-225 | A segment whose first character is no hexadecimal digit, underscore, sign or whitespace keeps its literal `%`. |
| WifiMgr.UnquoteKept | controller/wifimgr.py:216-226 | A leading character other than `%` passes through. |
| WifiMgr.UnquoteAfterPercent | controller/wifimgr.py:216-226 | After a leading `%`, every segment of the rest is decoded. |
| WifiMgr.UnquoteEscaped | controller/wifimgr.py:223 | A leading `%HH` becomes the byte `HH`. |
| WifiMgr.UnquoteEncode | controller/wifimgr.py:208-226 | `unquote` inverts percent-encoding whenever `%` itself is escaped. |
| WifiMgr.FormEncode | controller/wifimgr.py:164 | Definition of how a browser posts the form's values; properties in PlusNotDecoded and FormRoundTrip. |
| WifiMgr.FormUnquote | controller/wifimgr.py:242-245 | Definition of the corrected decoding; its property is FormRoundTrip. |
| WifiMgr.PlusToSpace | controller/wifimgr.py:244-245 | Replacing `+` by a space keeps the length. |
| WifiMgr.PlusNotDecoded | controller/wifimgr.py:208-226 | A browser posts "a b" as "a+b", and `unquote` returns "a+b". |
| WifiMgr.PlusToSpaceOfFormEncode | controller/wifimgr.py:244-245 | After `+` is read as a space, a form-encoded value is a plain percent-encoding. |
| WifiMgr.FormRoundTrip | controller/wifimgr.py:244-245 | With `+` decoded as a space, every posted value decodes to what was typed. |
| WifiMgr.Keys | controller/wifimgr.py:66 | One key per entry. |
| WifiMgr.Get | controller/wifimgr.py:104-105 | A profile is found only for an ssid that is a key. |
| WifiMgr.Put | controller/wifimgr.py:73 | Assignment replaces an existing entry or appends one. |
| WifiMgr.PutKeys | controller/wifimgr.py:73 | Assignment adds the ssid to the keys and keeps them distinct. |
| WifiMgr.PutGet | controller/wifimgr.py:309 | After assignment the ssid maps to the new profile and every other ssid to its old one. |
| WifiMgr.PutAppends | controller/wifimgr.py:309 | A new ssid is appended at the end of the insertion order. |
| WifiMgr.ParseLine | controller/wifimgr.py:67-73 | A line gives an entry iff it has two or more `;`-separated parts. |
| WifiMgr.ParseProfiles | controller/wifimgr.py:66-74 | The parsed profiles have distinct ssids. |
| WifiMgr.ReadProfiles | controller/wifimgr.py:62-76 | A missing file gives `{}`; ssids are distinct. |
| WifiMgr.ReadProfilesLoop | controller/wifimgr.py:62-76 | The loop computes `read_profiles`. |
| WifiMgr.ShortLineIgnored | controller/wifimgr.py:69 | A line with fewer than two fields changes nothing. |
| WifiMgr.LaterLineWins | controller/wifimgr.py:73 | A later line for an ssid overrides earlier ones and leaves the other ssids alone. |
| WifiMgr.HasProfiles | controller/wifimgr.py:79-81 | True iff the file is readable and some line of it names a profile. |
| WifiMgr.ParsedStep | controller/wifimgr.py:67-73 | The last line adds a profile exactly when it parses. |
| WifiMgr.ParsedSomething | controller/wifimgr.py:79-81 | There are parsed profiles iff some line parses. |
| WifiMgr.ProfileLines | controller/wifimgr.py:86-92 | One line per profile. |
| WifiMgr.WriteProfiles | controller/wifimgr.py:84-94 | The file contents are the profile lines joined, one per profile in dictionary order. |
| WifiMgr.FirstLineLength | controller/wifimgr.py:65 | The first line of the text is non-empty and part of it. |
| WifiMgr.FirstLineOf | controller/wifimgr.py:65 | The first line ends at the first newline. |
| WifiMgr.ReadLinesConcat | controller/wifimgr.py:65 | `readlines()` of joined whole lines gives back those lines. |
| WifiMgr.ProfileLine | controller/wifimgr.py:89-92 | Definition; properties in EntryFields, EntryLine and ParseProfileLine. |
| WifiMgr.ReadLines | controller/wifimgr.py:65 | Definition of `readlines()`; its property is ReadLinesConcat. |
| WifiMgr.EntryFields | controller/wifimgr.py:89-92 | A written line always has the ssid and password fields, and the ntp field follows when there is one. |
| WifiMgr.EntryLine | controller/wifimgr.py:89-92 | A storable entry is written as its fields joined by `;`, plus a newline, with no other newline. |
| WifiMgr.StripNewline | controller/wifimgr.py:68 | `strip("\n")` removes the one trailing newline. |
| WifiMgr.ParseProfileLine | controller/wifimgr.py:67-73 | A written line parses back into its entry. |
| WifiMgr.ProfileLinesShape | controller/wifimgr.py:89-92 | Every written line is a whole line. |
| WifiMgr.ParseProfileLines | controller/wifimgr.py:62-94 | Parsing the written lines rebuilds a dictionary whose keys were distinct. |
| WifiMgr.ProfilesRoundTrip | controller/wifimgr.py:62-94 | `read_profiles` after `write_profiles` returns the same profiles. |
| WifiMgr.ConnectedNtp | controller/wifimgr.py:97-108 | Definition; its property is ConfiguredNtp. |
| WifiMgr.ConfiguredNtp | controller/wifimgr.py:97-108 | After a configure that connected and rewrote the file, the host returned for the network just joined is the one typed into the form, or none if it was left empty. For any other network it is the host stored before. |
| WifiMgr.Credentials | controller/wifimgr.py:242-245 | Definition; its property is DecodeForm. |
| WifiMgr.CustomNtp | controller/wifimgr.py:251-257 | The decoded host, where an empty host counts as none. |
| WifiMgr.ManualTimeSet | controller/wifimgr.py:260-276 | Definition; its properties are in SetTimeFromForm and HandleConfigure. |
| WifiMgr.Decide | controller/wifimgr.py:282-330 | Without an ssid: offline iff the clock was set, otherwise a 400. With an ssid: connected iff `do_connect` succeeds. |
| WifiMgr.DecodeForm | controller/wifimgr.py:242-257 | The credentials and the custom host are `unquote`d. |
| WifiMgr.SetTimeFromForm | controller/wifimgr.py:260-280 | The clocks are touched only when requested with all six fields. The time counts as set only when `set_manual_time` succeeds, which is also when the RTC is written. The DS3231 is written whenever the month is indexable and its own write succeeds. |
| WifiMgr.HandleConfigure | controller/wifimgr.py:228-330 | The outcome is the decision above. After a connection the file is rewritten with the new profile assigned into the profiles read. The clocks change as for SetTimeFromForm. |
| WifiMgr.ConfigureStores | controller/wifimgr.py:305-310 | After a successful configure, reading the file back gives the new profile for the ssid and the old one for every other ssid. |
| WifiMgr.PutStorable | controller/wifimgr.py:309 | Assigning a storable profile keeps the dictionary storable. |
| WifiMgr.Routing | controller/wifimgr.py:378-428 | The portal returns `True` only when the station is connected or a configure request was handled. It returns `False` only through `continue_offline`. |
| WifiMgr.Url | controller/wifimgr.py:413-416 | Definition; its properties are TrailingSlashes and TrimRightSkips. |
| WifiMgr.Route | controller/wifimgr.py:419-428 | Definition; its properties are TrailingSlashes and RouteCases. |
| WifiMgr.PortalStep | controller/wifimgr.py:378-428 | Definition; its property is Routing. |
| WifiMgr.TrailingSlashes | controller/wifimgr.py:414 | Trailing slashes never change the page. |
| WifiMgr.TrimRightSkips | controller/wifimgr.py:414 | `rstrip` skips any trailing run of stripped characters. |
| WifiMgr.RouteCases | controller/wifimgr.py:414-428 | A request without a path and `/` select the root, `configure/` the configure page and `continue_offline` the offline page; `favicon.ico` is not found. |
| Mp3Player.InitialButtons | mp3_player/src/main.cpp:90-101 | There are six buttons. |
| Mp3Player.PlayNext | mp3_player/src/main.cpp:104-121 | The track at the index plays exactly when a sequence is on and not past its end; otherwise the sequence ends. |
| Mp3Player.Start | mp3_player/src/main.cpp:124-144 | A starter begins its sequence at index 0 with its first track. A direct button plays its file and clears the sequence. |
| Mp3Player.StopAll | mp3_player/src/main.cpp:240-246 | Nothing plays and no sequence is active. |
| Mp3Player.Advance | mp3_player/src/main.cpp:271-286 | A falling edge during a sequence moves to the next track or ends the sequence; otherwise only the running flag is remembered. |
| Mp3Player.TrackEnds | mp3_player/src/main.cpp:271-286 | A track that plays and stops keeps the playback consistent. |
| Mp3Player.TracksEnd | mp3_player/src/main.cpp:271-286 | Repeated track ends keep the playback consistent. |
| Mp3Player.SequencePlaysInOrder | mp3_player/src/main.cpp:271-286 | After `k` track ends, track `k` of a started sequence plays; after the last, the sequence is over. |
| Mp3Player.Elapsed | mp3_player/src/main.cpp:225 | `millis() - lastDebounceTime` in 32-bit unsigned arithmetic, wrap-around included. |
| Mp3Player.Debounce | mp3_player/src/main.cpp:219-227 | Definition; its property is DebounceChanges. |
| Mp3Player.DebounceChanges | mp3_player/src/main.cpp:219-227 | The stable level changes iff the raw level equals the last raw level, has held for more than 50 ms, and differs from the stable level; it then becomes the raw level. |
| Mp3Player.Event | mp3_player/src/main.cpp:226-266 | A press leaves the playback as it is and reports only the switch, as "Auto_Sunset_ON". Releasing the stop button stops everything and sends "Press_Stop". |
| Mp3Player.SwitchButton | mp3_player/src/main.cpp:230-239 | The switch button sends "Auto_Sunset_ON" when pressed and "Auto_Sunset_OFF" when released, and changes nothing else. |
| Mp3Player.Command | mp3_player/src/main.cpp:290-310 | After trimming, a line selects a button 0..3 iff its first character is '0'..'3'. |
| Mp3Player.CommandFirst | mp3_player/src/main.cpp:296-310 | A line without surrounding whitespace selects by its first character. |
| Mp3Player.CommandBlank | mp3_player/src/main.cpp:293-296 | A blank line, the empty line included, selects nothing. |
| Mp3Player.CommandTrims | mp3_player/src/main.cpp:293 | The `\r` of `println`, or any surrounding whitespace, is ignored. |
| Mp3Player.InitialModel | mp3_player/src/main.cpp:69-101 | The firmware starts in a good state. |
| Mp3Player.InitialWired | mp3_player/src/main.cpp:90-101 | Buttons 0..3 can play, and only buttons 4 and 5 are the stop and switch buttons. |
| Mp3Player.ServiceOne | mp3_player/src/main.cpp:214-268 | One button's turn keeps the wiring, the timestamps and the playback consistent. |
| Mp3Player.ServiceAll | mp3_player/src/main.cpp:213-269 | The same holds for the whole for-loop. |
| Mp3Player.Pass | mp3_player/src/main.cpp:210-316 | A pass of `loop()` keeps the state good. |
| Mp3Player.Received | mp3_player/src/main.cpp:288-316 | The serial block keeps the state good. |
| Mp3Player.SerialPressesButton | mp3_player/src/main.cpp:296-315 | A digit plays like a release of its button, but only "ACK" is sent. Any other line changes nothing but the acknowledgement. |
| Mp3Player.Player.constructor | mp3_player/src/main.cpp:69-101 | The globals and `buttons[]` in their initial state. |
| Mp3Player.Player.PlayNextInSequence | mp3_player/src/main.cpp:104-121 | The globals change as `PlayNext` states: the indexed track plays while the sequence is unfinished, and otherwise the sequence ends. |
| Mp3Player.Player.StartAudioPlayback | mp3_player/src/main.cpp:124-144 | The globals change as `Start` states: a starter begins its sequence at its first track, and a direct button plays its file and clears the sequence. |
| Mp3Player.Player.ServiceButton | mp3_player/src/main.cpp:214-268 | One turn of the for-loop changes the globals and `buttons[]` as `ServiceOne` states, and keeps them valid. |
| Mp3Player.Player.DebounceButton | mp3_player/src/main.cpp:219-227 | The debounce block updates `buttons[i]` in place and reports a change of the stable level. |
| Mp3Player.Player.OnStableChange | mp3_player/src/main.cpp:226-266 | After a change of stable level, the playback and the lines sent change as `Event` states for that level. |
| Mp3Player.Player.AdvanceSequence | mp3_player/src/main.cpp:271-286 | Only the playback changes, as `Advance` states for the end of a track. |
| Mp3Player.Player.Loop | mp3_player/src/main.cpp:210-316 | `loop()` on the globals and the array, matching `Pass`. |
| Mp3Player.Player.ServiceButtons | mp3_player/src/main.cpp:213-269 | The for-loop over the six buttons changes the state as `ServiceAll` states. |
| Mp3Player.Player.HandleSerial | mp3_player/src/main.cpp:288-316 | The serial block changes the state as `Received` states. |
| Mp3Player.Player.PlayButton | mp3_player/src/main.cpp:296-310 | A serial digit `k` starts `buttons[k]` as `Start` states, and nothing but the playback changes. |

## Left out

- Hardware set-up and output are not modelled: I2C, the OLED display and its timer, system messages, `print`/`Serial` debug output, `delay`, `time.sleep`, `setup()` (SD card, PSRAM check, restart) and `audio.loop()`.
- Clocks are parameters: `time.time()`, `utime.mktime`, `time.localtime`, `datetime.now()`, `millis()` and `ticks_ms()` are supplied as values or functions. `millis()` is read once per pass of `loop()`, where the firmware reads it twice per button.
- SunsetTable.SunsetTimeTuple: one `now` stands for the two `utime.time()` reads at `controller/sunset.py:35` and `controller/sunset.py:39`, so a day boundary between them is not modelled.
- ControllerMain.Cadence: one `clockAfter` stands for the two `time.time()` reads at `controller/main.py:159` and `controller/main.py:162`, in `Controller.KeepInSync` as well, so the two stored timestamps never differ. Likewise one `clock` stands for the reads at `controller/main.py:82` and `controller/main.py:85` in `Controller.constructor` and `ControllerMain.Initial`.
- Files are their lines: `open`, `readlines`, `next(csvfile)` and `csv.reader` are represented by the lines or rows they yield. CSV quoting is not modelled.
- Text is treated as characters: `encode`/`decode("utf-8")` are the identity, so multi-byte UTF-8 sequences are not decoded. This also covers `decode('utf-8', 'ignore')` of the request.
- Text.ParseInt: does not accept underscores or non-ASCII digits, which Python's `int()` does. It strips only the six ASCII whitespace characters `\t \n \v \f \r` and space, while CPython's `int()` in `audio_monitor.py` also strips the other Unicode whitespace (`\x1c`-`\x1f`, `\x85`, `\xa0` and more).
- TimeLogic.RestoredTime: `ManualTimeRestored` and `SyncedTimeRestored` state the weekday it yields. That the two write paths give the DS3231 weekdays of different conventions is recorded there and not corrected, because no part of the controller reads a weekday back.
- TimeLogic.Clocks.SyncNtpTime: `reachable` stands for the whole `try` body succeeding. A DS3231 write that raises after the RTC was set (the loop then goes on with the next host) is not modelled, and neither is the retry delay.
- TimeLogic: the DS3231 driver, `ntptime.settime()` and the RTC are reduced to the values written and read.
- ControllerMain.StartUp: the portal started when no profile exists (`controller/main.py:47-55`) is not modelled.
- ControllerMain: the manual AP button (`controller/main.py:117-124`) is not modelled, because it enters the portal, whose socket loop is out of scope.
- ControllerMain.Step: the wait at `controller/main.py:197-198` is modelled as no wait. It only waits while the minute is 0, and no fixed action is due at minute 0. A sunset action falls at minute 0 only for a table sunset of 0 or 5 minutes, where the wait is not modelled.
- ControllerMain.Step: the `23.9 * 60` floating-point operand at `controller/main.py:193` is never evaluated, because `action_flags.values()` is a non-empty, hence truthy, view.
- ControllerMain: the display strings at `controller/main.py:99-104` and `controller/main.py:168-170`, and the OLED handling of the received line, are not modelled.
- ControllerMain.Controller.Tick: `current_minutes`, today's day number and the decoded received line are pass inputs. A line that does not decode is `None`.
- WifiMgr: `get_connection`, `do_connect`, `send_response`, the HTML pages, `wlan_ap`, the sockets, timeouts and `stop()` are left out, as they are I/O. `do_connect`'s result is the `connects` input.
- WifiMgr.HandleConfigure: regular-expression matching is abstracted into `Form`. The month check stands for `set_manual_time`'s `IndexError`, and month 0 counts as indexable.
- WifiMgr.HandleConfigure: a `decode("utf-8")` that raises, for an escape forming invalid UTF-8 such as `%FF`, is not modelled, because the model's decoding never raises. The fallback at `controller/wifimgr.py:246-249` itself raises then, since the captured group is a `str` with no `decode`. The resulting `AttributeError` leaves the portal through its `finally`, and that crash is not modelled either.
- WifiMgr.PortalStep: one pass of `start`'s accept loop takes the request as two inputs: whether it contains `HTTP` and what the path group captured.
- `handle_root`, `handle_not_found` and `handle_continue_offline` in `controller/wifimgr.py` are not modelled beyond the routing decision, because they only write HTML.
- Mp3Player: the audio library is reduced to the track it was last asked to play, and `audio.isRunning()` is the `running`/`nowRunning` inputs. One `running` value serves every start within a pass.
- Mp3Player: `LONG_PRESS_MS` is never used by the source. `Serial2.readStringUntil`'s timeout and `flush()`, and the GPIO reads, are inputs or left out.
- AudioMonitor: `control_recorder`, `record_for_duration` (the subprocess and the recording time), and the sunset display at `audio_monitor.py:66-70` are left out. Ticks are arbitrary clock readings, so a recording that blocks the loop is a gap between readings.
- Calendar: the calendar is the proleptic Gregorian one that `datetime.date` uses. Time zones are an offset plus the daylight-saving rule.

## Findings

| source | as written | input that shows it | evidently intended | confidence | as-written member | corrected member |
|---|---|---|---|---|---|---|
| controller/main.py:193-205 | The flags are reset on the pass that sends the last action of the day. The wait only waits during minute 0, so nothing holds the reset until the next day. | Every flag up except 22:00, two passes at minute 1320, and a sunset before 22:00. Command "1" is sent on both passes. | Reset once per day when the date changes, so each action is sent at most once a day. | high; not executed | ControllerMain.ResetResends | ControllerMain.DatedAtMostOncePerDay |
| controller/main.py:193 | The reset waits until every flag is up. A sunset flag stays down on a day without a sunset row, or with the switch off. | Day 1 has no table row. All later passes, with no toggle line, send nothing. | The fixed actions are sent every day whatever the sunset. | high; not executed | ControllerMain.StuckForever | ControllerMain.DatedFixedFiresEachDay |
| controller/wifimgr.py:208-226 | `unquote` leaves `+` as it is, but the portal's form is posted `application/x-www-form-urlencoded`, which sends a space as `+`. | The password "a b" arrives as "a+b" and is stored as "a+b". | Read `+` as a space before the escapes (form decoding). | medium; not executed | WifiMgr.PlusNotDecoded | WifiMgr.FormRoundTrip |

`ControllerMain.Controller` and `WifiMgr.HandleConfigure` model the code as written. The corrected definitions are `ControllerMain.DatedStep`/`DatedRun` and `WifiMgr.FormUnquote`. They sit beside the as-written code, and the corrected properties are proved about them.
