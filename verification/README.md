# AR companion: schedule, picture targets and match coordination in Dafny

This project models the core of the AR companion app (Unity, C#). In the app, an animated character
("TongTong") walks between anchor points placed on printed pictures. The pictures are tracked by the
vision system. Which picture the character serves depends on the time of day.

- **Schedule table** (`TimeIdTable`). The table turns records (`id`, start "H:M", end "H:M") into
  slices of the day normalised to [0, 24). It answers "which schedule id holds at hour h?" with the
  first slice that covers h. Wrap-around slices such as 22:00–06:00 are handled, and a slice whose
  start equals its end covers the whole day.
- **Picture managers** (`PictureManager`). Each manager has one image target. It turns status
  reports into a tracked/untracked verdict, keeps a case-insensitive map from spot id to a
  spawned (start, target) anchor pair, and names one spot as current. A loss of tracking is
  debounced: teardown happens only if tracking has not come back after a delay.
- **Match coordinator** (`TongTongManager`). On every `MatchId` call it picks an active manager for
  the current schedule id. It decides whether the character is matched, then runs a four-way
  policy on (was matched, is matched). That policy emits commands to the motion runner and the aim rig.
- **Scene** (`Scene`). This composes the managers, the shared active-manager set and the
  coordinator. Each manager handler is replayed in the order the source performs its steps, and
  the loss coroutine becomes a deadline that `Tick` fires.
- **Clock display** (`TimeUI`). It renders a fractional hour as "hh:mm - state".
- **Microphone capture** (`MicrophoneCapture`). It reads new frames from a circular recording
  buffer and converts float32 samples to little-endian bytes.

Shared helpers are in `Text` (ASCII case folding for ordinal-ignore-case comparison, `int.TryParse`,
`String.Split`) and `Wrappers` (`Option`).

Design choices:

- Engine objects are values. An anchor transform is a `Node` (its manager's index in the scene,
  spawn round, entry index and end). The index makes nodes of different managers distinct, as
  separate `Instantiate` calls are in the engine. An object destroyed from outside is an `Option` turned to `None` by
  `Scene.DestroyNodes`, which is how Unity's overloaded null test sees it.
- Side effects are commands. The motion runner and the rig are represented only by the
  `Command`s sent to them, in order.
- The set of active managers is a `set<nat>` of manager indices. The enumeration order of the C#
  `HashSet` is unknown, so every pick takes it as a parameter `order`. Only the matched/not-matched
  verdict is proved independent of it (`TongTongManager.NowMatchOrderIndependent`). Which picture
  is chosen when several qualify depends on the order.
- Time is explicit. The loss timer is `lossDeadline`, and `Scene.Tick(now)` stands for the frame on
  which the coroutine resumes. The clock id is a parameter `Option<string>`, where `None` means no
  time controller is wired. `float.TryParse` is a parameter `FloatParser`.
- Floats are exact reals. `Mathf.Repeat(t, 24)` is `t - 24·floor(t/24)`.

Behaviour of the code worth knowing:

- The tracked verdict turns false as soon as tracking is lost. Only the spot, the pairs and the
  active-set membership wait for the timer.
- Recovering within the grace window respawns all pairs and re-selects the default spot. The
  earlier spot choice is not kept.
- With a delay of 0 or less, the loss coroutine never yields. Teardown therefore happens inside
  the same status callback.
- `CycleNextSpot` from an id that is not in the ordered list goes to position 1, not 0, because
  of `Max(0, -1) + 1`. Such an id can become current through `SetActiveSpotId` with a different
  letter case.
- The "no match → match" branch that guards against a missing pair can never be taken. A match
  requires a pair with both ends alive.

## Model

| member | source | states |
|---|---|---|
| Text.Fold | Assets/Resources/Picturemanger.cs:126-127 | the case-insensitive key has the same length as the id and folds every ASCII capital to its lower-case letter, leaving other characters alone |
| Text.EqualsIgnoreCase | Assets/Resources/Picturemanger.cs:113 | equal strings compare equal, and strings that compare equal have the same length and agree letter by letter up to ASCII case |
| Text.ParseInt32 | Assets/Resources/TimeIdTable.cs:131-132 | a successful parse lies in the 32-bit range and needs a non-empty digit string, optionally after one "+" or "-"; plain or "+" digits give their decimal value and "-" digits its negation, each exactly when that value fits 32 bits, and anything else fails |
| Text.Split | Assets/Resources/TimeIdTable.cs:129 | there is always at least one piece and no piece contains the separator |
| Text.SplitJoin | Assets/Resources/TimeIdTable.cs:129 | joining the pieces back with the separator restores the original string |
| Text.SplitOne | Assets/Resources/TimeIdTable.cs:129-130 | a string with exactly one separator splits into exactly the text before it and the text after it |
| Text.SplitMany | Assets/Resources/TimeIdTable.cs:129-130 | a string with two separators or more splits into at least three pieces |
| Text.NatToStringRoundTrip | Assets/Resources/TimeUIManager.cs:17 | the decimal text of a number reads back as that number |
| TimeIdTable.Repeat24 | Assets/Resources/TimeIdTable.cs:93-94 | the normalised hour lies in [0, 24) and differs from the input by a whole number of days |
| TimeIdTable.Repeat24Periodic | Assets/Resources/TimeIdTable.cs:110 | adding any whole number of days leaves the normalised hour unchanged |
| TimeIdTable.Repeat24InRange | Assets/Resources/TimeIdTable.cs:93-94 | an hour already in [0, 24) is left as it is |
| TimeIdTable.TryParseHHMM | Assets/Resources/TimeIdTable.cs:122-137 | an empty string fails; text without a colon is whatever the float parser says |
| TimeIdTable.Hours | Assets/Resources/TimeIdTable.cs:131-133 | the hour value exists exactly when both parts parsed, and is H + M/60 |
| TimeIdTable.ParseColonForm | Assets/Resources/TimeIdTable.cs:127-134 | "H:M" parses exactly when both halves are 32-bit integers, and then yields H + M/60, with no range check on H or M |
| TimeIdTable.ParseManyColons | Assets/Resources/TimeIdTable.cs:129-130 | text with two colons or more never parses |
| TimeIdTable.NegativeHourExample | Assets/Resources/TimeIdTable.cs:131-133 | "-1:30" parses to -0.5, since the sign of H is not applied to M |
| TimeIdTable.SliceOf | Assets/Resources/TimeIdTable.cs:88-96 | a record yields a slice exactly when its id is non-empty and both times parse, and the slice carries the id and both normalised times |
| TimeIdTable.RebuildSlices | Assets/Resources/TimeIdTable.cs:83-97 | there are never more slices than records; every slice has a non-empty id and both ends in [0, 24) and is the slice of some record; every usable record's slice is among them |
| TimeIdTable.RebuildAppend | Assets/Resources/TimeIdTable.cs:88-96 | rebuilding works record by record: the slices of a concatenation are the concatenated slices, in record order |
| TimeIdTable.RebuildSingle | Assets/Resources/TimeIdTable.cs:90-95 | one record gives its own slice or, if unusable, nothing |
| TimeIdTable.GetRecordById | Assets/Resources/TimeIdTable.cs:99-103 | the result is the first record whose id equals the query exactly (case-sensitively); an empty id, or an id no record has, finds nothing |
| TimeIdTable.FindRecord | Assets/Resources/TimeIdTable.cs:102 | the linear search returns the first exact match at or after the start index, or reports that no record has the id |
| TimeIdTable.TryMapTimeToId | Assets/Resources/TimeIdTable.cs:105-120 | an id is returned exactly when some slice covers the normalised hour, and it is the id of the first such slice |
| TimeIdTable.HitsIsClockwiseArc | Assets/Resources/TimeIdTable.cs:113-116 | on normalised hours a slice covers exactly the clockwise arc of the dial from its start up to its end, or the whole dial when both are equal |
| TimeIdTable.WrapIsComplement | Assets/Resources/TimeIdTable.cs:114-115 | a slice that wraps past midnight covers exactly the hours its reversed slice does not |
| TimeIdTable.Scan | Assets/Resources/TimeIdTable.cs:111-119 | the scan returns the first covering slice at or after its start index, or reports that none covers the hour |
| TimeIdTable.FirstHitUnique | Assets/Resources/TimeIdTable.cs:111-117 | the resolved slice is unique |
| TimeIdTable.MapPeriodic | Assets/Resources/TimeIdTable.cs:110 | hours a whole number of days apart resolve to the same id |
| TimeIdTable.WrapAroundExample | Assets/Resources/TimeIdTable.cs:114-115 | a 22:00–06:00 slice covers 23:00, 0:00 and 5.99, but not 6:00 or 12:00 |
| TimeIdTable.DegenerateAlwaysHits | Assets/Resources/TimeIdTable.cs:116 | a slice whose start equals its end covers every hour, so it wins whenever it comes first |
| TimeIdTable.EmptyTableMisses | Assets/Resources/TimeIdTable.cs:108 | an empty table resolves nothing |
| TimeUI.ClockParts | Assets/Resources/TimeUIManager.cs:15-16 | the hour is floor(t) and the minute lies in 0..59 with h + m/60 ≤ t < h + (m+1)/60 |
| TimeUI.Pad2 | Assets/Resources/TimeUIManager.cs:17 | the "00" format never contains a colon; a non-negative number gives at least two digits, a negative one a minus followed by the padded digits of its magnitude |
| TimeUI.Pad2Parses | Assets/Resources/TimeUIManager.cs:17 | every padded 32-bit number, negative ones included, parses back to itself |
| TimeUI.ClockText | Assets/Resources/TimeUIManager.cs:15-17 | the clock text splits at its one colon into the padded hour and the padded minute |
| TimeUI.UpdateUI | Assets/Resources/TimeUIManager.cs:13-18 | the display text is the "hh:mm" clock text, then " - ", then the state name, with the length adding up |
| TimeUI.ClockTextRoundTrip | Assets/Resources/TimeUIManager.cs:15-17 | for any hour whose floor fits 32 bits, negative hours included, the clock text parses back with the schedule's own parser to a value at most one minute below the hour |
| MicrophoneCapture.SampleCount | Assets/Connection2PC/MicrophoneCapture.cs:39-48 | the number of new frames lies in 1..n-1, and moving that far round the ring from the last read position reaches the write position |
| MicrophoneCapture.GetNewSamples | Assets/Connection2PC/MicrophoneCapture.cs:29-75 | with no clip, or an unmoved write position, nothing is returned and the cursor stays; otherwise the result is the circular window of new frames, count × channels samples long, and the cursor moves to the write position |
| MicrophoneCapture.ReadIsWindow | Assets/Connection2PC/MicrophoneCapture.cs:50-71 | the one-part or two-part copy equals the circular window starting at the last read position |
| MicrophoneCapture.WindowConcat | Assets/Connection2PC/MicrophoneCapture.cs:54-70 | two adjacent windows of the ring make one longer window |
| MicrophoneCapture.ConsecutiveReadsTile | Assets/Connection2PC/MicrophoneCapture.cs:73-74 | two consecutive reads return, concatenated, exactly the frames written since the first read began, and leave the cursor at the second write position |
| MicrophoneCapture.FlattenAppend | Assets/Connection2PC/MicrophoneCapture.cs:69-70 | copying two frame runs one after the other interleaves them as one run |
| MicrophoneCapture.SampleBytesRoundTrip | Assets/Connection2PC/MicrophoneCapture.cs:84 | the four little-endian bytes of a sample reassemble into that sample |
| MicrophoneCapture.FloatArrayToByteArray | Assets/Connection2PC/MicrophoneCapture.cs:80-86 | null or empty input gives null; otherwise the byte array is four times as long |
| MicrophoneCapture.EncodeDecode | Assets/Connection2PC/MicrophoneCapture.cs:83-84 | decoding the encoded bytes gives back every sample |
| MicrophoneCapture.ByteArrayRoundTrip | Assets/Connection2PC/MicrophoneCapture.cs:80-86 | for non-empty input the converted bytes decode back to the original samples |
| PictureManager.IsConsideredTracked | Assets/Resources/Picturemanger.cs:63-76 | TRACKED always counts as tracked; EXTENDED_TRACKED and LIMITED count exactly when their flags are set; NO_POSE and DETECTED never count |
| PictureManager.IndexOf | Assets/Resources/Picturemanger.cs:222 | the index is -1 exactly when the id is absent, and otherwise points at an equal entry |
| PictureManager.IndexOfFirst | Assets/Resources/Picturemanger.cs:222 | no earlier entry equals the id, so the index found is the first occurrence |
| PictureManager.OrderedSpotIds | Assets/Resources/Picturemanger.cs:153-156 | the ordered ids hold no duplicates (compared case-sensitively), contain exactly the non-empty configured ids, and follow their first occurrence in the configuration |
| PictureManager.SpawnPairs | Assets/Resources/Picturemanger.cs:232-250 | every non-empty configured id has a pair under its folded key, every key comes from such an id, and every fresh pair has both ends alive |
| PictureManager.PairsMatchOrdered | Assets/Resources/Picturemanger.cs:232-250 | the pair map is empty exactly when there are no ordered ids, and every ordered id has a pair |
| PictureManager.Create | Assets/Resources/Picturemanger.cs:148-157 | a new manager is untracked, shows "none", has no pairs and no timer, and its ordered ids are the non-empty configured ones |
| PictureManager.DefaultSpotId | Assets/Resources/Picturemanger.cs:306-312 | the configured default is chosen when it has a pair; otherwise the first ordered id; otherwise "none" |
| PictureManager.Acquire | Assets/Resources/Picturemanger.cs:178-186 | becoming tracked cancels the loss timer, replaces the pair map with a freshly spawned one (a new spawn round), and selects the default spot of that new map |
| PictureManager.Lose | Assets/Resources/Picturemanger.cs:194-200 | losing tracking turns the verdict false and arms a single timer `max(delay, 0)` from now; the spot and the pairs stay |
| PictureManager.ExpireSpot | Assets/Resources/Picturemanger.cs:85-87 | the timer is spent; the spot becomes "none" only if tracking has not come back |
| PictureManager.DespawnPairs | Assets/Resources/Picturemanger.cs:252-263 | despawning empties the pair map and changes nothing else |
| PictureManager.TryGetPairById | Assets/Resources/Picturemanger.cs:109-123 | a pair comes back exactly when the manager is tracked, the id is non-empty and equals the current spot ignoring case, and both ends of that spot's pair are alive; it is that pair |
| PictureManager.TryGetLivePair | Assets/Resources/Picturemanger.cs:139-143 | the live pair is the pair of the current spot under the same conditions, so it exists only while tracked and on a non-empty spot |
| PictureManager.AcquireSelectsLiveSpot | Assets/Resources/Picturemanger.cs:178-186 | right after acquisition, a manager with spots configured has a live pair for its current spot; one without spots shows "none" and has no pairs |
| PictureManager.SetActiveSpotId | Assets/Resources/Picturemanger.cs:205-217 | the spot changes, and a re-match is requested, exactly when the manager is tracked and has a pair for the non-empty id ignoring case; otherwise nothing changes |
| PictureManager.NextIndex | Assets/Resources/Picturemanger.cs:222-223 | from a listed id the next position is one further, wrapping to 0 after the last; from an unlisted id it is position 1 (0 when there is one id) |
| PictureManager.CycleNextSpot | Assets/Resources/Picturemanger.cs:219-228 | cycling acts exactly when the manager is tracked and has spots, and then moves to the listed id at the next position |
| PictureManager.IterateFullCircle | Assets/Resources/Picturemanger.cs:222-224 | from any position, as many steps as there are ids return to the same id |
| PictureManager.CycleTimesIterate | Assets/Resources/Picturemanger.cs:219-228 | repeated cycling changes nothing but the current spot |
| PictureManager.CycleFullCircle | Assets/Resources/Picturemanger.cs:219-228 | cycling through all spots once returns the manager to exactly where it started |
| PictureManager.CycleAfterCaseVariant | Assets/Resources/Picturemanger.cs:205-224 | after "b" is selected among ["A", "B", "C"], cycling moves to "B" rather than "C" |
| TongTongManager.EnsureSpawned | Assets/Resources/TongTongManager.cs:228-260 | the character exists afterwards if it can be spawned at all, and a fresh spawn switches the rig off |
| TongTongManager.EnsureSpawnedIdempotent | Assets/Resources/TongTongManager.cs:228-230 | a second spawn attempt changes nothing and issues nothing |
| TongTongManager.Start | Assets/Resources/TongTongManager.cs:42-53 | start-up spawns the character, and with a rig present its last command switches the rig off |
| TongTongManager.ToRig | Assets/Resources/TongTongManager.cs:272-279 | a rig stop is issued exactly when a rig is present, and never more than one |
| TongTongManager.Cleared | Assets/Resources/TongTongManager.cs:106-112 | clearing the snapshot marks the character unmatched and changes nothing else |
| TongTongManager.LiveCandidate | Assets/Resources/TongTongManager.cs:93-100 | a manager qualifies for the second pass exactly when it is active, tracked and has a live pair; its spot and pair are reported |
| TongTongManager.FirstExact | Assets/Resources/TongTongManager.cs:79-90 | the first pass returns an enumerated manager whose spot equals the schedule id ignoring case, or reports that none qualifies |
| TongTongManager.FirstLive | Assets/Resources/TongTongManager.cs:92-100 | the second pass returns an enumerated manager with a live pair, or reports that none has one |
| TongTongManager.FirstExactAt | Assets/Resources/TongTongManager.cs:79-90 | the first-pass position is the first enumerated exact candidate, or the end of the order when there is none |
| TongTongManager.FirstLiveAt | Assets/Resources/TongTongManager.cs:92-100 | the second-pass position is the first enumerated live candidate, or the end of the order when there is none |
| TongTongManager.Pick | Assets/Resources/TongTongManager.cs:75-104 | nothing is picked exactly when no enumerated manager is a live candidate; when some manager is active, tracked, on the schedule id and has a live pair, the pick is the first such manager in enumeration order; otherwise it is the first live candidate; the reported spot and pair are the chosen manager's |
| TongTongManager.NowMatch | Assets/Resources/TongTongManager.cs:131-132 | the character is matched exactly when a manager is picked and that manager is an exact candidate for the schedule id |
| TongTongManager.NowMatchIff | Assets/Resources/TongTongManager.cs:129-132 | the character is matched exactly when some enumerated active, tracked manager has the schedule id as its spot (ignoring case) and a live pair |
| TongTongManager.NowMatchOrderIndependent | Assets/Resources/TongTongManager.cs:80-100 | the enumeration order of the active set does not change whether the character is matched |
| TongTongManager.SecondPassNeverMatches | Assets/Resources/TongTongManager.cs:92-100 | a manager found only by the second pass never counts as a match |
| TongTongManager.MatchId | Assets/Resources/TongTongManager.cs:121-218 | with no time controller nothing happens; otherwise the new matched flag is the match verdict, the snapshot is empty when unmatched and holds both ids when matched, and the wiring is kept |
| TongTongManager.MatchToMatch | Assets/Resources/TongTongManager.cs:139-147 | matched → matched issues no command and refreshes the snapshot with the live pair |
| TongTongManager.MatchToNoMatchAbort | Assets/Resources/TongTongManager.cs:150-166 | when a character exists or can be spawned, matched → unmatched with a changed picture or an incomplete snapshot first spawns the character if needed, then hard-returns to the fallback point, then stops the rig, and clears the snapshot |
| TongTongManager.MatchToNoMatchReverse | Assets/Resources/TongTongManager.cs:168-178 | when a character exists or can be spawned, matched → unmatched with the same picture first spawns the character if needed, then stops the rig, then runs the remembered pair backwards with the remembered schedule id, and clears the snapshot |
| TongTongManager.NoMatchToMatch | Assets/Resources/TongTongManager.cs:182-205 | when a character exists or can be spawned, unmatched → matched first spawns the character if needed, then aligns to the live start, runs forward to the target, and remembers that pair |
| TongTongManager.NoMatchToNoMatch | Assets/Resources/TongTongManager.cs:207-217 | when a character exists or can be spawned, unmatched → unmatched first spawns the character if needed, then stops the rig, then hard-returns to the fallback point, and clears the state |
| TongTongManager.NoMatchIdempotent | Assets/Resources/TongTongManager.cs:207-217 | re-evaluating an unchanged unmatched world leaves the state as it is and re-issues the same stop-and-return commands |
| TongTongManager.NoCharacterNoMotion | Assets/Resources/TongTongManager.cs:161-217 | with no character and none spawnable, re-evaluation sends the motion runner nothing, while the matched flag still follows the verdict |
| TongTongManager.MotionCommandsAppend | Assets/Resources/TongTongManager.cs:161-173 | the motion runner's view of two command runs is the concatenation of its views of each |
| TongTongManager.LastMotionAfterLoss | Assets/Resources/TongTongManager.cs:150-178 | when a character exists or can be spawned, losing the match ends with a motion command that heads home, whichever of the two loss branches runs |
| TongTongManager.LastMotionAtRest | Assets/Resources/TongTongManager.cs:207-217 | when a character exists or can be spawned, staying unmatched sends the motion runner exactly one hard return |
| TongTongManager.LastMotionAfterGain | Assets/Resources/TongTongManager.cs:182-205 | when a character exists or can be spawned, gaining a match ends with a forward run |
| TongTongManager.LastMotionCommand | Assets/Resources/TongTongManager.cs:138-217 | when a character exists or can be spawned: whenever the character ends up unmatched, the last motion command heads home; after a fresh match it is a forward run; a kept match sends the motion runner nothing |
| Scene.Initial | Assets/Resources/Picturemanger.cs:148-157 | the scene starts with every manager created from its configuration, identified by its index, nothing active, the coordinator started, and the scene invariant in force |
| Scene.Match | Assets/Resources/TongTongManager.cs:121-136 | a poll of the coordinator keeps the scene invariant and touches neither the managers nor the active set |
| Scene.Expire | Assets/Resources/Picturemanger.cs:80-95 | expiry of a tracked manager only spends its timer; for an untracked one, the coordinator re-evaluates with the manager on "none" and out of the active set, and only then are its pairs destroyed; other managers are unchanged |
| Scene.OnTargetStatusChanged | Assets/Resources/Picturemanger.cs:170-201 | a report that does not change the verdict changes nothing; otherwise only manager i changes, its verdict follows the report, and the scene invariant is kept |
| Scene.Tick | Assets/Resources/Picturemanger.cs:80-95 | a timer that is not due changes nothing; a due timer on an untracked manager takes it out of the active set on "none" without pairs, and the coordinator re-evaluates with the manager gone; the scene invariant is kept |
| Scene.ExpireKeepsInv | Assets/Resources/Picturemanger.cs:85-94 | expiry while untracked sets the spot to "none", leaves the active set, re-evaluates the coordinator without the manager, destroys all pairs and keeps every other manager |
| Scene.AcquireKeepsInv | Assets/Resources/Picturemanger.cs:178-188 | acquiring a manager and adding it to the active set keeps the scene invariant |
| Scene.SetActiveSpotId | Assets/Resources/Picturemanger.cs:205-217 | when the manager does not switch, nothing happens; when it switches, only that manager changes and the coordinator re-evaluates the scene with the new spot; the scene invariant is kept |
| Scene.CycleNextSpot | Assets/Resources/Picturemanger.cs:219-228 | when the manager does not cycle, nothing happens; when it cycles, only that manager changes and the coordinator re-evaluates the scene with the new spot; the scene invariant is kept |
| Scene.Kill | Assets/Resources/Picturemanger.cs:120 | a reference stays alive exactly when its object is not among the destroyed ones |
| Scene.DestroyNodes | Assets/Resources/Picturemanger.cs:116-121 | destroying anchor objects from outside keeps every pair key and the active set, and keeps the scene invariant |
| Scene.DestroyOneManagersAnchors | Assets/Resources/Picturemanger.cs:116-121 | destroying only anchors that manager i spawned leaves every other manager unchanged |
| Scene.LossIsDeferred | Assets/Resources/Picturemanger.cs:194-200 | with a positive delay, losing tracking changes only the verdict and the timer; the coordinator is not called |
| Scene.WithinGraceNothingHappens | Assets/Resources/Picturemanger.cs:82-83 | a tick before the deadline changes nothing |
| Scene.FlickerWithinGrace | Assets/Resources/Picturemanger.cs:178-181 | loss followed by recovery before the deadline never takes the manager out of the active set, and ends tracked with the timer cancelled |
| Scene.LossAfterGraceTearsDown | Assets/Resources/Picturemanger.cs:85-94 | without recovery, the first tick at or after the deadline leaves the manager untracked, on "none", inactive, without pairs and without a timer, and the coordinator re-evaluates with the manager out of the active set |
| Scene.ZeroDelayTearsDownAtOnce | Assets/Resources/Picturemanger.cs:82-94 | with a delay of 0 or less, teardown happens within the loss report itself, including the coordinator's re-evaluation with the manager out of the active set |
| Scene.LosingOnlyMatchSendsHome | Assets/Resources/Picturemanger.cs:85-92 | when the matched manager is lost for good and no other manager is on the schedule id, the tick that tears it down leaves the character unmatched and its last motion command heads home |
| Scene.AcquireMakesLive | Assets/Resources/Picturemanger.cs:178-192 | becoming tracked makes the manager active with fresh pairs and a live current spot, then re-evaluates the coordinator with it active |

## Left out

- Rendering and transforms: prefab instantiation, local position/rotation/scale (`ReapplyAllLocalTRS`, `ApplyLocalTRS`), node names and logging. None of them affects a decision.
- `BindThisToManager` / `SetPictureManager`: the coordinator never reads the field they set. The coordinator is assumed present, so `TriggerMatch` and `FindObjectOfType<TongTongManager>()?.MatchId()` both reach it.
- Null elements in the configuration lists (`pairs`, `records`) and a null record list. The model's sequences hold no nulls.
- Null strings: ids and time texts are non-null `string`s. `TryParseHHMM` treats null like the empty string, which the model covers.
- `GetTimeId()` returning null is not modelled. The schedule id is either absent (no controller, `None`) or a string.
- The motion runner, the animation rig, the character's collision set-up and `TimeIdRecord.ApplyAndRunOn` / `ApplyAndRunForId` are not part of this model. They appear only as the `Command`s sent to them.
- Float rounding: times, hours and deadlines are exact reals. `Mathf.Approximately(start, end)` is modelled as exact equality, and `h + m/60f` as exact division.
- `float.TryParse` is a parameter. Its culture-dependent number syntax is not modelled.
- `int.TryParse` accepts an optional sign and digits within the 32-bit range. Surrounding white space, which .NET also accepts, is not modelled.
- Audio samples are opaque 32-bit words. Their float meaning is irrelevant to copying and byte conversion. The microphone device, `Microphone.Start` and `GetPosition` become the clip and the `currentPos` parameter.
- Engine scheduling: `Start`/`Awake` ordering, `OnValidate`, and the singleton guard of `TimeIdTable`. A `Scene` step is one handler call run to completion.
- Anchor objects left behind when tracking comes back within the grace window. The source respawns without destroying the previous instances. The model just replaces the pair map.
- TimeIdTable.RebuildSlices: its contract states membership both ways but not order or multiplicity. Those are stated by `RebuildAppend` and `RebuildSingle` together.
- TimeUI.ClockTextRoundTrip: stated only for hours whose floor fits 32 bits. Beyond that `Mathf.FloorToInt` has no defined result, and the model does not guess one.
- Text.Fold: folds ASCII letters only. .NET `OrdinalIgnoreCase` also folds non-ASCII letters, so "É" and "é" compare equal in the source but not in the model. The configured ids and schedule ids are expected to be ASCII.
