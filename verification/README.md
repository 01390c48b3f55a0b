# NextKick rotation engine in Dafny

NextKick is a single-page app for running pick-up football across three
fields. Staff register teams, and the registered teams wait in one global
queue. A field that is started takes the first two waiting teams. When its
match ends, by two goals, by a declared result or because the clock ran out,
the two teams are credited with a win/loss or a draw. They then re-enter the
queue according to the rotation mode in force:

- **winner stays**: the winner, or the challenger on a draw, goes to the
  front and the loser to the back;
- **overflow**: both teams go to the back. Overflow applies when it is
  selected and enough teams are registered.

This project models that engine, the event handlers of the `NextKickApp`
component, as pure functions over an immutable state. It then proves what the
handlers promise and what the rotation relies on.

Modules, one per concern:

| file | module | what it holds |
|---|---|---|
| `base.dfy` | `Base` | team and field ids, `Option` |
| `text.dfy` | `Text` | JavaScript `trim`, integer `toString`, `padStart` |
| `queue.dfy` | `Queue` | the global queue: filtering, moving a team up or down, shuffling |
| `fields.dfy` | `Fields` | fields, matches, lookup and update by field id, the active-field list |
| `roster.dfy` | `Roster` | teams and their win/loss/draw tallies |
| `modes.dfy` | `Modes` | the mode in force and where finished teams re-enter the queue |
| `clock.dfy` | `Clock` | the `m:ss` clock display and the one-second countdown |
| `engine.dfy` | `Engine` | the app state and every handler as a state transition |
| `conservation.dfy` | `Conservation` | the invariant, and its preservation by every handler |
| `scenarios.dfy` | `Scenarios` | runs of staff actions and clock seconds, and the next match after one ends |

The central result is `Scenarios.RunPreserves`. Take any sequence of staff
actions and clock seconds in which Start is pressed only on an idle field, as
the screen arranges. After it, every registered team is in exactly one place:
once in the queue or on exactly one field. No team plays itself. Team ids and
names stay unique, and names stay trimmed and non-empty. The roster's total
wins equal its total losses, and its total draws are even.

The queue holds team ids rather than copies of team objects. The source keeps
copies, but it only ever reads their `id` (and `name`, for display). Likewise
a match side keeps the team id and its score.

## Model

| member | source | states |
|---|---|---|
| Text.Trim | src/App.js:50 | `trim` removes a whitespace prefix and suffix (ECMAScript's WhiteSpace and LineTerminator), leaves no whitespace at either end, and gives the empty string exactly when the input is all whitespace |
| Text.TrimPadded | src/App.js:50-53 | a trimmed name surrounded by any whitespace trims back to itself, so stray spaces typed around a name do not make it a different name |
| Text.TrimIdempotent | src/App.js:50-53 | trimming a stored (already trimmed) name again changes nothing |
| Text.NatToStringRoundTrip | src/App.js:46 | `toString` of a non-negative integer is its decimal numeral: reading the digits back gives the number |
| Text.IntToStringRoundTrip | src/App.js:44-46 | `toString` of any integer, negative ones included, reads back as that integer: a minus sign before the magnitude's digits when negative |
| Text.PadStart | src/App.js:46 | `padStart(width, c)` keeps a string that is long enough, and otherwise prefixes copies of `c` up to exactly `width` characters, keeping the string as the suffix |
| Queue.Without | src/App.js:82 | the queue filter keeps the remaining teams in their order (a subsequence), drops every occurrence of a playing team and keeps each other team's count |
| Queue.IndexOf | src/App.js:196 | `findIndex` returns no position exactly when the team is not queued, and otherwise the position of its first occurrence |
| Queue.MoveTeam | src/App.js:195-205 | moving a team changes nothing when it is not queued or would leave the queue; otherwise it trades places with its neighbour above (up) or below (down), no other position changes, and the same teams stay queued |
| Queue.MoveUpThenDown | src/App.js:195-205 | moving a queued team that is not at the front up and then down restores the queue, whether or not the queue holds repeats |
| Queue.Shuffle | src/App.js:190-193 | a shuffle is a permutation: same teams, same length |
| Queue.ShuffleReachesEvery | src/App.js:190-193 | every rearrangement of the queue is a possible outcome of the shuffle |
| Queue.ShuffleOfPicksFor | src/App.js:190-193 | for any rearrangement, a choice sequence exists that makes the shuffle produce exactly it |
| Fields.Playing | src/App.js:74-80 | the `playingTeams` set holds exactly the teams of the current matches |
| Fields.FindField | src/App.js:117 | `fields.find` finds nothing exactly when no field has the id, and otherwise a field with that id |
| Fields.SetMatch | src/App.js:176-178 | the map over the fields replaces the match of the fields with that id and leaves every other field as it was |
| Fields.SetMatchIds | src/App.js:97-106 | replacing the match on one field changes the multiset of playing teams by exactly the teams leaving and the teams arriving |
| Fields.SetMatchOnIds | src/App.js:176-178 | the same exchange stated for the field named by its id, the form starting and ending a match use |
| Fields.SameTeamsIds | src/App.js:120-132 | a new score for the same two teams leaves the multiset of playing teams unchanged |
| Fields.FindFieldSetMatch | src/App.js:176-178 | after the update, looking up the updated field finds it with the new match, and looking up any other field finds it as before |
| Fields.ToggleActive | src/App.js:64-68 | toggling flips only the `isActive` flag of the fields with that id, and keeps every id, name and match |
| Fields.ToggleTwice | src/App.js:64-68 | toggling the same field twice restores every field |
| Fields.OnlyActive | src/App.js:70 | the filter keeps every active field as often as it occurs and drops every inactive one |
| Fields.ActiveFields | src/App.js:70 | the active-field list holds exactly the active fields, in ascending id order, and is a rearrangement of the filtered list |
| Fields.ActiveFieldsOnce | src/App.js:70 | with distinct field ids, every active field is listed exactly once and no other field appears |
| Fields.ActiveFieldsOfSorted | src/App.js:70 | on fields already in id order, as the initial fields 1, 2, 3 are, the sort keeps the filtered order |
| Roster.Credit | src/App.js:144-156 | a team that played gains exactly one game: a win if its side won, a loss if the other side won, a draw on a draw; a team that did not play is unchanged; id and name are kept |
| Roster.Tally | src/App.js:144-156 | the result is credited to every team of the roster, in roster order, with ids kept |
| Roster.TallyWins | src/App.js:144-156 | for two different teams the roster's total wins grow by the number of roster entries of the winning side, and not at all on a draw |
| Roster.TallyLosses | src/App.js:144-156 | for two different teams the roster's total losses grow by the number of roster entries of the losing side, and not at all on a draw |
| Roster.TallyDraws | src/App.js:144-156 | for two different teams the roster's total draws grow, on a draw only, by the number of roster entries of both sides |
| Roster.TallyKeepsBalance | src/App.js:144-156 | for two different registered teams, a result keeps total wins equal to total losses and total draws even |
| Roster.AppendTotals | src/App.js:58 | appending a team adds its own wins, losses and draws to the roster's totals |
| Modes.CurrentGameMode | src/App.js:85-90 | overflow is in force exactly when it is selected and the team count has reached the threshold; every other combination plays winner stays |
| Modes.OverflowPersists | src/App.js:85-90 | registering more teams never switches overflow off again |
| Modes.Requeue | src/App.js:158-173 | the queue grows by the two teams of the match. In overflow they go to the back, `team1` first, whatever the result. In winner stays the winner (the challenger `team2` on a draw) goes to the front and the loser to the back. The waiting teams keep their order |
| Modes.WinnerLoserSplit | src/App.js:164-172 | winner and loser are the two teams of the match, one each, and a draw makes `team2` the winner |
| Modes.RequeueFront | src/App.js:163-172 | after a winner-stays match the queue starts with the winner, then the team that waited longest, or the loser when nobody was waiting |
| Clock.JsRemainder | src/App.js:45 | JavaScript's `%` is below the divisor in magnitude, takes the sign of the dividend, and differs from the dividend by a multiple of the divisor, which fixes its value |
| Clock.FormatTimeShape | src/App.js:43-47 | for every count, negative ones included, the display is a minutes numeral reading as `Math.floor` of the count over 60, a colon and the remainder: exactly two digits when it is non-negative, and a minus sign with one or two digits when it is negative (`padStart` leaves those alone) |
| Clock.FormatTimeRoundTrip | src/App.js:43-47 | for every count, negative ones included, reading the display back gives the number of seconds shown, so two different counts never look alike |
| Clock.Tick | src/App.js:22-33 | a tick neither creates nor removes a timer, and reports only fields that have one |
| Clock.TickAt | src/App.js:22-33 | a field with a match and time left loses one second, clamped at 0, and is reported expired exactly when it reaches 0; every other timer keeps its value and is not reported |
| Clock.TickNonNegative | src/App.js:26-32 | a tick never takes a timer below zero: non-negative timers stay non-negative, and a clock at zero is neither changed nor reported again |
| Engine.AddTeam | src/App.js:49-62 | an empty or already registered trimmed name changes nothing; otherwise the team, under the trimmed name and with no results, is appended to the roster and to the back of the queue, and nothing else changes |
| Engine.FreshId | src/App.js:52 | the id given to a new team is greater than every id in use, so no team has it |
| Engine.ToggleField | src/App.js:64-68 | toggling a field flips the active flag of the fields with that id and changes no team, no place in the queue, no timer and no match |
| Engine.NextAvailableTeams | src/App.js:72-83 | the available teams are the queued teams not playing on any field, in queue order |
| Engine.StartMatch | src/App.js:92-114 | with fewer than two available teams nothing changes. Otherwise the field hosts the first two available teams with no goals. Exactly those two leave the queue; the rest keep their order. The field keeps its id, name and active flag, and its timer becomes the match length in seconds. The roster, the settings and the other fields are untouched. When no field has the id, the fields stay as they were |
| Engine.AddGoal | src/App.js:124 | a goal adds one to the scoring side, leaves the other side's score alone, and keeps both teams |
| Engine.ScoreGoal | src/App.js:116-134 | a goal on a field without a match, or with a missing or zero timer, changes nothing. Otherwise the scoring side gains one goal, the field is found with the new score, every other field is found as before, and nothing else changes. The match is to end as that side's win exactly when it has reached two goals |
| Engine.HandleMatchEnd | src/App.js:136-181 | ending a field without a match changes nothing. Otherwise the roster is tallied and the two teams re-enter the queue as the mode in force dictates, so the queue grows by two. The field is cleared while keeping its id, name and active flag, and its timer is set to 0. The other fields, the other timers and the settings are untouched |
| Engine.Reset | src/App.js:183-188 | reset empties roster, queue and timers, and clears every match while keeping each field's id, name and active flag |
| Engine.ShuffleQueue | src/App.js:190-193 | shuffling changes only the queue, and only its order |
| Engine.MoveTeamInQueue | src/App.js:195-205 | the queue becomes the queue with the team moved as `Queue.MoveTeam` states; the same teams stay queued and nothing else changes |
| Engine.TickState | src/App.js:25-33 | a second of the clock sets the timers to the per-field countdown of `Clock.Tick`, reports the fields it expired, keeps the timers' keys, and changes nothing else |
| Conservation.ExactlyOnePlace | src/App.js:5-16 | under the invariant a registered team is placed exactly once, in the queue or on one field, and an unregistered id nowhere |
| Conservation.NoDoubleBooking | src/App.js:72-83 | under the invariant no team waits twice, no waiting team is also playing, and no team is on two sides at once |
| Conservation.AvailableIsQueue | src/App.js:72-83 | under the invariant the available teams are the whole queue |
| Conservation.InitEstablishes | src/App.js:5-16 | the initial state satisfies the invariant |
| Conservation.AddTeamPreserves | src/App.js:49-62 | registering a team under an unused id keeps the invariant |
| Conservation.ToggleFieldPreserves | src/App.js:64-68 | toggling a field keeps the invariant |
| Conservation.StartMatchPreserves | src/App.js:92-114 | starting an existing idle field keeps the invariant: the two teams move from the queue to the field |
| Conservation.ScoreGoalPreserves | src/App.js:116-134 | a goal keeps the invariant |
| Conservation.HandleMatchEndPreserves | src/App.js:136-181 | ending a match keeps the invariant: the two teams move from the field back to the queue, and the roster stays balanced |
| Conservation.EndMatchPlaced | src/App.js:158-180 | ending a match moves its two teams from the field to the queue, and the placed multiset is unchanged |
| Conservation.EndMatchRoster | src/App.js:144-156 | the two sides of a match are different registered teams, so crediting the result keeps ids and names unique and the roster balanced |
| Conservation.ResetEstablishes | src/App.js:183-188 | the state after reset satisfies the invariant |
| Conservation.QueueReorderPreserves | src/App.js:190-205 | shuffling and moving a team keep the invariant |
| Conservation.TickPreserves | src/App.js:19-41 | a second of the clock keeps the invariant |
| Scenarios.EndAsDrawsPreserves | src/App.js:27-31 | ending the expired fields' matches as draws, one after another, keeps the invariant |
| Scenarios.StepPreserves | src/App.js:449-456 | every staff action and clock second keeps the invariant, with Start pressed only on an idle field as the screen offers it |
| Scenarios.RunPreserves | src/App.js:19-205 | after any run of actions and seconds every registered team is in exactly one place |
| Scenarios.FromStart | src/App.js:5-16 | every state reachable from the initial state satisfies the invariant |
| Scenarios.NextMatch | src/App.js:92-114 | under the invariant, starting an existing field puts the first two queued teams on it |
| Scenarios.WinnerStaysRematch | src/App.js:163-172 | in winner stays, restarting the field after a match puts the winner (the challenger on a draw) back on it, against the team that waited longest, or against the same opponent when nobody else was waiting |
| Scenarios.OverflowNextMatch | src/App.js:159-161 | in overflow, restarting the field after a match takes the two teams that waited longest, and the finished teams play again only when fewer than two others were waiting |
| Scenarios.SecondGoalDecides | src/App.js:126-130 | from 0 goals on a running clock, a side's first goal does not end the match and its second ends it as that side's win |

## Left out

- JSX rendering (src/App.js:207-556) is not modelled. That includes the mode description text, the settings inputs and the name input box. Two exceptions: the Start button is offered only on idle fields, which `Scenarios.Step` applies; and the Goal button's timer check is also in the handler.
- Settings changes are not modelled as operations. The match length, the mode selector and the overflow threshold are fields of `Config`, and any value may be set. Number inputs that produce fractions or `NaN` are not modelled: both settings are integers.
- Asynchronous timing is not modelled: `setInterval`, the 100 ms `setTimeout` before a match is ended, React's batching of state updates, and closures reading stale state. `Scenarios.Step` ends a decided or expired match at once, with the current state.
- `Date.now()` is a parameter. A new team's id is supplied by the caller (`Scenarios.Step` uses `Engine.FreshId`). A match's `startTime` is never read and is not modelled.
- Conservation.AddTeamPreserves: requires the new id to be unused. Two teams registered in the same millisecond would get the same id, and that case is not modelled.
- `Math.random()` in the shuffle comparator is replaced by a choice sequence, `picks`. The model proves that every permutation is reachable. It does not model how likely each one is.
- The in-place increment of the score object (src/App.js:124) is modelled as a fresh value. Under React's strict mode the updater could run twice on the same object; that is not modelled.
- Conservation.StartMatchPreserves: requires an existing, idle field. `startMatch` itself checks neither. On a busy field it would overwrite the match, and its two teams would be on no field and in no queue. The screen only offers Start on idle fields (src/App.js:449-456).
- Each field's unused `queue: []` member is not modelled.
- Numbers are unbounded integers. JavaScript numbers are doubles: integers above 2^53 lose precision, and `toString` switches to exponent notation from 1e21. A match length typed so large would display differently from the model's `Clock.FormatTime`.
- Strings are sequences of Unicode characters. JavaScript strings are sequences of UTF-16 code units, so a lone surrogate in a typed name has no counterpart in the model. Nothing proved depends on it: `trim` strips only characters of the Basic Multilingual Plane, and names are compared for equality as a whole.
