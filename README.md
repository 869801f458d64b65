# ESP32 door access: a verified model of the access decision and the activity log

The ESP32 door-access firmware (`ESP32_Door_Access/src/main.cpp`) runs a camera and a
face recognizer, and unlocks a relay-driven door for enrolled users. This project
models the part of the firmware that decides and records, in Dafny. It consists of:

- **the liveness window**: a four-slot ring of face geometry (`faceHistory`,
  `faceHistoryIndex`, `faceHistoryCount`). It is filled on every detected face, cleared
  by `resetLivenessTracking` and reseeded on an identity change. It is modelled by the
  class `Liveness.FaceHistory` over an `array`, and by the value `Liveness.Window`, a
  `Rings.Ring`.
- **the liveness analyser `checkLiveness`**:
  - It compares the adjacent slot pairs 0-1, 1-2 and 2-3 by array position, not in the
    order the samples were written.
  - It puts each pair in the zero, micro (position change up to 20) or large (above 30)
    band.
  - It computes integer averages and a max - min spread, with the minimum seeded 999.
  - It applies the five ordered rejection checks.
  - Both loops are kept as loops in `FaceHistory.CompareAdjacentPairs` and
    `FaceHistory.SumChanges`. They are proved against the pure `Compare`, `Sum`, `MaxOf`
    and `MinOf`. The verdict is `Liveness.Analyze`.
- **the confirmation gate of `handleRecognition`**:
  - the checks on the recognized name and on confidence;
  - three consecutive matches of the same name;
  - the liveness check;
  - the same-user cooldown of 5000 ms;
  - the grant.

  One cycle is the pure `Access.RecognitionStep`. `Access.DoorAccess.HandleRecognition`
  updates the globals in place and is proved equal to it.
- **the door relay**: `unlockDoor`, the relock in `loop` after more than 3000 ms, and
  the manual unlock (which writes no log entry).
- **the tiered activity log**:
  - `logActivity` appends a CSV line to the SD card when the card is ready and the file
    opens, then runs `trimSDLogFile`. Otherwise the entry goes into the five-slot RAM
    ring.
  - `trimSDLogFile` keeps the header and the last fifty lines.
  - The `/api/logs` query:
    - reads the card when it is ready and the file exists, and the RAM ring otherwise;
    - skips the header and trims each line;
    - reads at most 500 lines and reports the newest first;
    - splits each line with `indexOf` into five comma fields.
  - `/api/logs/clear` empties both tiers.
  - The class `ActivityLog.LogStore` holds the globals. Each handler is proved equal to
    a function on `ActivityLog.LogState`.
- **enrollment bookkeeping**:
  - the enrollment step counter of `handleEnrollment`;
  - the one-shot completion flag reported by `/api/enroll/status`;
  - the two scans of the face store: the unique-name list of `GET /api/users` and the
    record filter of `DELETE /api/users`.

Time is the board's 32-bit `millis()` (`Clock.Millis`). Every timeout is the unsigned
subtraction `Clock.Elapsed`. Wrap-around is therefore modelled exactly, not assumed
away. A recognition cycle takes two clock readings as inputs:
- `now` is used for the cooldown test, `lastAccessTime` and `doorUnlockTime`. No delay
  separates those readings in the source.
- `logNow` is the reading `logActivity` stamps its entry with. On a grant it is taken
  after the six 100 ms `delay` calls of the LED blink in `unlockDoor`. So the
  `ACCESS_GRANTED` entry's timestamp is `logNow`, not the unlock instant.

Camera capture, face detection, face recognition and enrollment are library calls, so
their results are inputs:
- a `Frame` per recognition cycle, whose recognition carries an `aboveThreshold` flag
  for the 0.92 similarity test and the confidence in hundredths;
- an `Attempt` per enrollment cycle.

File opens are inputs too: `Io` for the SD card and `SpiffsIo` for the face store.

Where the code behaves in ways its comments and documentation do not spell out, the
model follows the code:

- A frame without a face only clears the liveness window. The match counter and the
  locked-in user are kept (`Access.NoFaceKeepsGate`).
- A name that is empty, `"empty"` or `"unknown"` clears the gate and logs nothing.
- A pair with no position change but a size change counts as a micro-movement.
- A liveness failure logs a denial and keeps the gate as counted
  (`Access.LivenessFailureKeepsGate`).
- A cooldown hit ends the cycle with no log entry and no reset.
- After an identity change the window is reseeded with one sample. When the three
  matches of the new name come in three back-to-back cycles, the third match is the
  first one that reaches the liveness check. It sees three samples and fails with too
  few frames (`Access.ThirdMatchAfterIdentityChangeFails`). A grant for the new
  identity then needs a fourth match. A face cycle while no users are enrolled in
  between would store a sample and leave the counter, so the window can fill sooner.
- Once the window has wrapped, the pair at the write cursor compares the newest sample
  with the oldest (`Liveness.WrappedPairJoinsNewestAndOldest`).
- `DELETE /api/users` accepts an `id` parameter but compares records by name only. A
  request with an `id` and no `name` deletes nothing and answers "User not found"
  (`Enrollment.DeleteByIdFindsNothing`).
- Both face-store scans stop at the first record whose control bytes are not
  `0x14 0x08`. The delete then rewrites the store with only the records before that
  point.
- `/api/enroll/start` does not clear a completion that no status request has
  reported yet (`Enrollment.StartKeepsPendingCompletion`).
- While the card is ready and the file exists, an entry that fell back to RAM because
  the append failed is never reported (`ActivityLog.FallbackHiddenFromQuery`).
- The card can be ready with no log file, when the header write failed at boot or in
  `/api/logs/clear`. The next `logActivity` then creates the file with `FILE_APPEND`,
  and its line becomes the line both readers skip as the header. That first entry is
  never reported, and trimming keeps it as the header
  (`ActivityLog.HeaderlessFileHidesFirstEntry`).

The modules are:
- `Rings`: the circular buffer as a value.
- `Text`: decimal printing, `String::trim` and `String::indexOf`.
- `Clock`: the 32-bit clock.
- `Liveness`: the window and the analyser.
- `ActivityLog`: the log tiers, the CSV line and the query.
- `Access`: the gate, the cooldown, the door and the controller.
- `Enrollment`: enrollment and the face-store scans.

## Model

All source paths are in `ESP32_Door_Access/src/main.cpp`.

| member | source | states |
|---|---|---|
| Rings.Contents | ESP32_Door_Access/src/main.cpp:119-121 | the entries a ring holds, oldest first, number exactly its fill count |
| Rings.LastN | ESP32_Door_Access/src/main.cpp:1635-1637 | the last `n` elements of a sequence, element by element |
| Rings.Push | ESP32_Door_Access/src/main.cpp:1262-1265 | a write keeps the ring well formed and saturates the count at the capacity |
| Rings.Empty | ESP32_Door_Access/src/main.cpp:709-710 | cursor and count zero leave a well-formed ring holding nothing |
| Rings.PushContents | ESP32_Door_Access/src/main.cpp:1629-1637 | after a write the ring holds the last `cap` entries written: the contents with the new entry appended, the oldest dropped once full |
| Rings.PushGrowing | ESP32_Door_Access/src/main.cpp:1262-1265 | below capacity a write appends to the contents |
| Rings.PushFull | ESP32_Door_Access/src/main.cpp:1629-1635 | at capacity a write overwrites the oldest entry: contents + [x] without its first element |
| Rings.NewestSlot | ESP32_Door_Access/src/main.cpp:684-685 | the slot one behind the cursor and `j` further back, wrapped, is a slot index |
| Rings.NewestSlotIsNewest | ESP32_Door_Access/src/main.cpp:683-685 | that slot holds the `j`-th newest entry |
| Text.DigitChar | ESP32_Door_Access/src/main.cpp:1609 | a digit character whose value is `d` |
| Text.NatToString | ESP32_Door_Access/src/main.cpp:1609 | `%lu` prints a non-empty string of digits |
| Text.DecimalRoundTrip | ESP32_Door_Access/src/main.cpp:1609 | the printed decimal denotes the number printed |
| Text.NatToStringInjective | ESP32_Door_Access/src/main.cpp:675 | distinct timestamps print differently |
| Text.CentiToString | ESP32_Door_Access/src/main.cpp:1609-1611 | `%.2f` of a confidence: digits, a point, two decimals, no comma |
| Text.TrimStartShape | ESP32_Door_Access/src/main.cpp:641 | `trim` removes exactly a leading run of white space |
| Text.TrimEndShape | ESP32_Door_Access/src/main.cpp:641 | `trim` removes exactly a trailing run of white space |
| Text.TrimShape | ESP32_Door_Access/src/main.cpp:511 | a trimmed string is no longer and starts and ends with non-space |
| Text.TrimEmptyIffBlank | ESP32_Door_Access/src/main.cpp:641-644 | a line trims to nothing exactly when it is all white space |
| Text.TrimTidy | ESP32_Door_Access/src/main.cpp:1569 | `trim` leaves a line without surrounding white space unchanged |
| Text.IndexOf | ESP32_Door_Access/src/main.cpp:653-656 | `indexOf(ch, from)` is -1 or a position at or after `from` |
| Text.IndexOfFound | ESP32_Door_Access/src/main.cpp:653-656 | a position found holds the character searched |
| Text.IndexOfSkipsNone | ESP32_Door_Access/src/main.cpp:653-656 | no occurrence lies between `from` and the position found |
| Clock.Elapsed | ESP32_Door_Access/src/main.cpp:341 | `millis() - since` in unsigned 32-bit arithmetic: the difference, or the difference plus 2^32 after a wrap |
| Clock.ElapsedAdds | ESP32_Door_Access/src/main.cpp:1343 | elapsed times add up through an intermediate instant within one wrap |
| Liveness.Samples | ESP32_Door_Access/src/main.cpp:119-121 | the window holds at most four samples |
| Liveness.StoreSample | ESP32_Door_Access/src/main.cpp:1261-1265 | storing writes the slot at the cursor, advances it modulo 4, saturates the count at 4, keeps exactly the written slots valid and leaves the last four samples |
| Liveness.ResetWindow | ESP32_Door_Access/src/main.cpp:1522-1530 | reset empties the window and marks every slot invalid |
| Liveness.ReseedWindow | ESP32_Door_Access/src/main.cpp:1316-1319 | reseeding leaves only the current sample, at slot 0, with cursor and count 1 |
| Liveness.ReseedIsResetThenStore | ESP32_Door_Access/src/main.cpp:1316-1319 | the reseed equals a reset followed by an ordinary store |
| Liveness.Compare | ESP32_Door_Access/src/main.cpp:1408-1441 | at most one change per pair compared, and every compared pair counted in at most one band: zero + micro + large <= validComparisons <= 3 |
| Liveness.CompareNext | ESP32_Door_Access/src/main.cpp:1413-1414 | a pair with an invalid slot is skipped, a valid pair is tallied |
| Liveness.Statistics | ESP32_Door_Access/src/main.cpp:1450-1467 | the band counts never exceed the number of comparisons |
| Liveness.FullWindowComparesThreePairs | ESP32_Door_Access/src/main.cpp:1408-1422 | a full window compares the three array-order pairs and its band counts are the pairwise tallies |
| Liveness.ThreeValidPairs | ESP32_Door_Access/src/main.cpp:1416-1440 | four valid slots give the three pairwise changes in array order and their band counts |
| Liveness.StillButResizedIsMicro | ESP32_Door_Access/src/main.cpp:1425-1434 | no position change with a size change counts as micro |
| Liveness.FewFramesFail | ESP32_Door_Access/src/main.cpp:1394-1398 | fewer than four samples fail, whatever they hold |
| Liveness.LiveOnlyWhenNoCheckFires | ESP32_Door_Access/src/main.cpp:1391-1519 | a pass holds exactly when the window is full, a pair was compared and none of the five checks fires |
| Liveness.LiveNeedsMicroMovement | ESP32_Door_Access/src/main.cpp:1480-1516 | a pass needs at least two micro pairs, at most one large and at most one still pair |
| Liveness.IdenticalSamplesAreStatic | ESP32_Door_Access/src/main.cpp:1479-1484 | four samples of identical geometry are rejected by check 1 |
| Liveness.LargeSteadyMovementRejected | ESP32_Door_Access/src/main.cpp:1486-1491 | every pair moving more than 30 is rejected by check 2 |
| Liveness.WrappedPairJoinsNewestAndOldest | ESP32_Door_Access/src/main.cpp:1408-1412 | once wrapped, the array-order pair at the cursor joins the newest and the oldest sample |
| Liveness.FaceHistory.constructor | ESP32_Door_Access/src/main.cpp:119-121 | the zero-initialised globals: no slot valid, cursor and count zero |
| Liveness.FaceHistory.Store | ESP32_Door_Access/src/main.cpp:1261-1265 | the in-place store is `StoreSample` of the old window |
| Liveness.FaceHistory.Reset | ESP32_Door_Access/src/main.cpp:1522-1530 | the in-place reset, its loop included, is `ResetWindow` of the old window |
| Liveness.FaceHistory.Reseed | ESP32_Door_Access/src/main.cpp:1316-1319 | the in-place reseed is `ReseedWindow` of the old window |
| Liveness.FaceHistory.CompareAdjacentPairs | ESP32_Door_Access/src/main.cpp:1401-1441 | the first loop stores exactly the changes of `Compare`, in order, and its three band counts |
| Liveness.FaceHistory.SumChanges | ESP32_Door_Access/src/main.cpp:1450-1463 | the second loop computes the totals, the maximum seeded 0 and the minimum seeded 999 |
| Liveness.FaceHistory.CheckLiveness | ESP32_Door_Access/src/main.cpp:1391-1520 | `checkLiveness` returns true exactly when `Analyze` of the window is a pass, and reports its verdict |
| ActivityLog.AcceptedOrdered | ESP32_Door_Access/src/main.cpp:653-658 | four accepted positions are commas, strictly increasing, none at the start |
| ActivityLog.IndexOfFirst | ESP32_Door_Access/src/main.cpp:653 | `indexOf` returns the first comma at or after `from` |
| ActivityLog.NoCommaBefore | ESP32_Door_Access/src/main.cpp:653-656 | no comma lies between `from` and the comma found |
| ActivityLog.CutAtComma | ESP32_Door_Access/src/main.cpp:659-663 | a line cut at a comma is the field, the comma and the rest |
| ActivityLog.FieldAt | ESP32_Door_Access/src/main.cpp:659-663 | a field followed by a comma sits at the expected positions |
| ActivityLog.SecondField | ESP32_Door_Access/src/main.cpp:660 | the second field's slice of a joined line |
| ActivityLog.ThirdField | ESP32_Door_Access/src/main.cpp:661 | the third field's slice of a joined line |
| ActivityLog.FourthField | ESP32_Door_Access/src/main.cpp:662-663 | the fourth and fifth fields' slices of a joined line |
| ActivityLog.FourSlices | ESP32_Door_Access/src/main.cpp:659-663 | the five slices of a joined line are its fields |
| ActivityLog.FirstComma | ESP32_Door_Access/src/main.cpp:653 | the first comma of a joined line ends its first field |
| ActivityLog.FieldIndex | ESP32_Door_Access/src/main.cpp:1609 | each character of a field followed by a comma |
| ActivityLog.SecondComma | ESP32_Door_Access/src/main.cpp:654 | the second comma ends the second field |
| ActivityLog.ThirdComma | ESP32_Door_Access/src/main.cpp:655 | the third comma ends the third field |
| ActivityLog.FourthComma | ESP32_Door_Access/src/main.cpp:656 | the fourth comma ends the fourth field |
| ActivityLog.FourCommas | ESP32_Door_Access/src/main.cpp:653-656 | the four searches of a joined line find its four separators |
| ActivityLog.SplitAt | ESP32_Door_Access/src/main.cpp:653-664 | a split at four accepted positions yields the slices between them |
| ActivityLog.CommasAt | ESP32_Door_Access/src/main.cpp:653-658 | searches finding four increasing positive positions are accepted |
| ActivityLog.SplitFive | ESP32_Door_Access/src/main.cpp:653-664 | five fields joined by commas split back into those fields when the first is non-empty and the first four hold no comma |
| ActivityLog.JoinSplit | ESP32_Door_Access/src/main.cpp:653-664 | `Split(Join(f)) == f` for such fields |
| ActivityLog.CutsJoin | ESP32_Door_Access/src/main.cpp:659-663 | a line is the join of its slices between four commas |
| ActivityLog.SplitJoin | ESP32_Door_Access/src/main.cpp:653-664 | every line the split accepts is the join of its fields |
| ActivityLog.SplitFieldsNoComma | ESP32_Door_Access/src/main.cpp:653-663 | the first four fields of a split hold no comma and the first is non-empty |
| ActivityLog.JoinTidy | ESP32_Door_Access/src/main.cpp:1609 | a line starting and ending with non-space is tidy |
| ActivityLog.DecimalNoComma | ESP32_Door_Access/src/main.cpp:1609 | a printed timestamp holds no comma |
| ActivityLog.FormatTidy | ESP32_Door_Access/src/main.cpp:1609-1611 | a formatted line survives `trim` unchanged |
| ActivityLog.FormatSplits | ESP32_Door_Access/src/main.cpp:1609-1611 | a formatted line splits back into the five fields printed |
| ActivityLog.FormatThenParse | ESP32_Door_Access/src/main.cpp:1609-1611 | a logged entry read back from the card gives the record the RAM tier would report for it |
| ActivityLog.Clean | ESP32_Door_Access/src/main.cpp:1566-1574 | the reading loops keep no more lines than they read |
| ActivityLog.CleanAppend | ESP32_Door_Access/src/main.cpp:639-645 | reading two stretches of lines keeps the lines of each, in order |
| ActivityLog.CleanIsTidy | ESP32_Door_Access/src/main.cpp:1568-1573 | every kept line is non-empty and trimmed |
| ActivityLog.CleanSnoc | ESP32_Door_Access/src/main.cpp:640-644 | one more line read is kept trimmed unless blank |
| ActivityLog.ReadStopped | ESP32_Door_Access/src/main.cpp:639-645 | a reader stopping at the cap or at the end holds the first `cap` data lines |
| ActivityLog.CleanTidy | ESP32_Door_Access/src/main.cpp:1566-1574 | tidy lines read back unchanged |
| ActivityLog.Append | ESP32_Door_Access/src/main.cpp:1605-1611 | the append creates the file if needed and puts the line last |
| ActivityLog.TrimFile | ESP32_Door_Access/src/main.cpp:1554-1596 | trimming never creates or removes the file |
| ActivityLog.TrimKeepsLastFifty | ESP32_Door_Access/src/main.cpp:1578-1592 | trimming leaves a file of at most fifty data lines unchanged, otherwise leaves the header and exactly the last fifty lines in order |
| ActivityLog.TidySuffix | ESP32_Door_Access/src/main.cpp:1589-1592 | the lines kept from `startIdx` on are tidy |
| ActivityLog.LogStep | ESP32_Door_Access/src/main.cpp:1598-1643 | `logActivity` keeps the ring well formed and never changes card readiness |
| ActivityLog.LogStepTiers | ESP32_Door_Access/src/main.cpp:1603-1641 | an entry on the card leaves RAM alone; one in RAM leaves the file alone and the ring holds the last five entries |
| ActivityLog.AppendThenTrim | ESP32_Door_Access/src/main.cpp:1605-1617 | append then trim keeps the header, and the data lines become exactly the last fifty of the old data lines plus the new one, in order (oldest dropped at capacity); below fifty they just grow by it |
| ActivityLog.ReadLines | ESP32_Door_Access/src/main.cpp:639 | the query holds at most 500 lines |
| ActivityLog.Backwards | ESP32_Door_Access/src/main.cpp:650-678 | the records reported number at most the lines scanned |
| ActivityLog.Parsed | ESP32_Door_Access/src/main.cpp:652-658 | one parse per line |
| ActivityLog.NewestFirstStep | ESP32_Door_Access/src/main.cpp:650-678 | one more older line adds its record, if it parses, at the back |
| ActivityLog.CursorSlot | ESP32_Door_Access/src/main.cpp:684-685 | `(index - 1 - i + 5) % 5` is the `i`-th newest slot and holds the `i`-th newest entry |
| ActivityLog.QueryRamStep | ESP32_Door_Access/src/main.cpp:683-698 | one more RAM record is the next older entry |
| ActivityLog.QueryBounded | ESP32_Door_Access/src/main.cpp:639-650 | the query returns at most `limit` records and at most 500 |
| ActivityLog.BackwardsReverses | ESP32_Door_Access/src/main.cpp:650 | on parsing lines the records are the lines reversed |
| ActivityLog.NewestFirstReverses | ESP32_Door_Access/src/main.cpp:648-678 | on well-formed lines the card path reports the lines in reverse order |
| ActivityLog.LastLineReportedFirst | ESP32_Door_Access/src/main.cpp:648-664 | the last data line's record comes first |
| ActivityLog.CardQueryAfterAppend | ESP32_Door_Access/src/main.cpp:1605-1617 | after an append and trim on the card, the appended line is what the query reports first |
| ActivityLog.LoggedEntryComesFirst | ESP32_Door_Access/src/main.cpp:1598-1643 | after an entry is logged with every open succeeding, the query's first record is that entry, whether RAM took it or the card did, the card case needing a file that holds at least its header line |
| ActivityLog.BackwardsLast | ESP32_Door_Access/src/main.cpp:650 | the last parse comes first |
| ActivityLog.NewestFirstLast | ESP32_Door_Access/src/main.cpp:650-664 | the last line's record comes first |
| ActivityLog.FallbackHiddenFromQuery | ESP32_Door_Access/src/main.cpp:631 | an entry that fell back to RAM while the file exists is not reported |
| ActivityLog.HeaderlessFileHidesFirstEntry | ESP32_Door_Access/src/main.cpp:1603-1611 | on a ready card without the file, the first entry logged creates it as the file's only line, which the readers take as the header: the query then reports nothing |
| ActivityLog.Clear | ESP32_Door_Access/src/main.cpp:706-725 | clearing keeps the ring well formed and card readiness unchanged |
| ActivityLog.ClearIdempotent | ESP32_Door_Access/src/main.cpp:706-725 | clearing twice is clearing once, and a cleared log reports nothing |
| ActivityLog.Boot | ESP32_Door_Access/src/main.cpp:251-277 | boot: an empty ring; a mounted card without the file gets the header; an existing file is kept |
| ActivityLog.LogStore.constructor | ESP32_Door_Access/src/main.cpp:251-277 | the set-up globals are `Boot` |
| ActivityLog.LogStore.ReadDataLines | ESP32_Door_Access/src/main.cpp:635-645 | the query's reading loop holds the first 500 trimmed non-empty data lines |
| ActivityLog.LogStore.ReadAllDataLines | ESP32_Door_Access/src/main.cpp:1565-1574 | the trim's reading loop holds every trimmed non-empty data line |
| ActivityLog.LogStore.Rewrite | ESP32_Door_Access/src/main.cpp:1588-1592 | the rewrite loop writes the header, then the lines from `startIdx` |
| ActivityLog.LogStore.TrimSDLogFile | ESP32_Door_Access/src/main.cpp:1554-1596 | the in-place trim is `TrimStep` |
| ActivityLog.LogStore.LogActivity | ESP32_Door_Access/src/main.cpp:1598-1643 | the in-place `logActivity`, the RAM ring write included, is `LogStep` |
| ActivityLog.LogStore.SdNewestFirst | ESP32_Door_Access/src/main.cpp:649-679 | the card loop reports the parsing lines from the last down to `start` |
| ActivityLog.LogStore.RamNewestFirst | ESP32_Door_Access/src/main.cpp:683-698 | the RAM loop reports the newest `limit` entries, newest first |
| ActivityLog.LogStore.QueryLogs | ESP32_Door_Access/src/main.cpp:630-699 | the handler's record list is `Query` |
| ActivityLog.LogStore.ClearLogs | ESP32_Door_Access/src/main.cpp:706-725 | the in-place clear is `Clear` |
| Access.ActionNameNoComma | ESP32_Door_Access/src/main.cpp:1302 | no logged action name holds a comma |
| Access.Unlock | ESP32_Door_Access/src/main.cpp:1535-1539 | `unlockDoor` sets the door unlocked at `now` |
| Access.Relock | ESP32_Door_Access/src/main.cpp:341-346 | the door stays unlocked exactly while unlocked and at most 3000 ms have elapsed |
| Access.Counted | ESP32_Door_Access/src/main.cpp:1306-1320 | an accepted name is locked in and leaves the cooldown globals alone |
| Access.CountedWindow | ESP32_Door_Access/src/main.cpp:1311-1320 | the window after counting is well formed |
| Access.Decide | ESP32_Door_Access/src/main.cpp:1306-1375 | the gate after the name checks keeps the window well formed |
| Access.Identify | ESP32_Door_Access/src/main.cpp:1279-1383 | the checks on the recognizer's answer keep the window well formed |
| Access.RecognitionStep | ESP32_Door_Access/src/main.cpp:1239-1385 | a cycle keeps the window well formed |
| Access.Logged | ESP32_Door_Access/src/main.cpp:1302 | the cycle's `logActivity` call keeps the log well formed |
| Access.DecideOutcomes | ESP32_Door_Access/src/main.cpp:1306-1375 | below three matches wait, then deny on liveness failure, stay silent in the cooldown, grant otherwise; only a grant changes the door, the gate beyond counting, or the window |
| Access.AcceptedIsDecided | ESP32_Door_Access/src/main.cpp:1261-1304 | an accepted match reaches the gate with the sample stored |
| Access.RejectionOutcomes | ESP32_Door_Access/src/main.cpp:1240-1304 | every other frame keeps the door, and keeps the gate or clears it and the window |
| Access.CounterTransitions | ESP32_Door_Access/src/main.cpp:1285-1320 | the counter becomes +1 (same name), 1 with the window reseeded (new name), 0 with no user (rejections and grant), or stays (no face, no users) |
| Access.GrantExactly | ESP32_Door_Access/src/main.cpp:1326-1375 | a grant happens exactly for an accepted, locked-in name reaching three matches with a live window outside the cooldown |
| Access.UnlockOnlyOnGrant | ESP32_Door_Access/src/main.cpp:1326-1375 | only a grant unlocks the door and asks for an `ACCESS_GRANTED` entry |
| Access.GrantEffects | ESP32_Door_Access/src/main.cpp:1364-1375 | a grant records user and time, clears gate and window, unlocks, and asks for one successful entry |
| Access.LivenessFailureKeepsGate | ESP32_Door_Access/src/main.cpp:1334-1340 | a liveness failure asks for a denial entry and keeps the counted gate, window and door |
| Access.CooldownIsSilent | ESP32_Door_Access/src/main.cpp:1343-1348 | within 5000 ms of the same user's grant there is no unlock and no entry; past the gate the cycle ends silently |
| Access.CooldownGlobalsOnlySetByGrant | ESP32_Door_Access/src/main.cpp:1365-1366 | only a grant changes the last access user and time |
| Access.NoUsersOnlyStores | ESP32_Door_Access/src/main.cpp:1272-1276 | with no users enrolled the sample is stored and nothing else changes |
| Access.NoFaceKeepsGate | ESP32_Door_Access/src/main.cpp:1246-1251 | a lost face clears only the window |
| Access.RejectionsClearGate | ESP32_Door_Access/src/main.cpp:1285-1304 | rejected names clear the gate silently; low confidence and unknown faces clear it and ask for their denial entries |
| Access.ThirdMatchAfterIdentityChangeFails | ESP32_Door_Access/src/main.cpp:1311-1340 | three matches of a new name: two waits, then a liveness failure for too few frames |
| Access.RelockAfterDuration | ESP32_Door_Access/src/main.cpp:341-346 | the relay stays on for 3000 ms after an unlock, and a relocked door stays locked |
| Access.ResetGateHasNoCooldown | ESP32_Door_Access/src/main.cpp:565-569 | after the faces are cleared no accepted name is in the cooldown |
| Access.GrantIsReportedFirst | ESP32_Door_Access/src/main.cpp:1375 | a grant's entry, stamped with `logActivity`'s own reading `logNow`, is what the log query reports first |
| Access.DoorAccess.constructor | ESP32_Door_Access/src/main.cpp:105-108 | the gate and door globals as the firmware starts them |
| Access.DoorAccess.UnlockDoor | ESP32_Door_Access/src/main.cpp:1535-1539 | the in-place unlock is `Unlock` |
| Access.DoorAccess.RelockIfDue | ESP32_Door_Access/src/main.cpp:341-346 | the in-place relock is `Relock` |
| Access.DoorAccess.ManualUnlock | ESP32_Door_Access/src/main.cpp:612-615 | the manual unlock unlocks and changes neither the window nor the log |
| Access.DoorAccess.ClearFaces | ESP32_Door_Access/src/main.cpp:565-569 | `/api/enroll/clear` resets the window, the gate and the cooldown globals |
| Access.DoorAccess.CountMatch | ESP32_Door_Access/src/main.cpp:1306-1320 | the in-place counting is `Counted` and `CountedWindow` |
| Access.DoorAccess.Grant | ESP32_Door_Access/src/main.cpp:1364-1375 | the in-place grant: cooldown globals set to `now`, gate and window cleared, door unlocked at `now`, grant logged at `logNow` |
| Access.DoorAccess.Confirm | ESP32_Door_Access/src/main.cpp:1306-1375 | the in-place gate is `Decide` |
| Access.DoorAccess.ClearGate | ESP32_Door_Access/src/main.cpp:1288-1290 | the in-place rejection reset is `ResetWindow` and `Cleared` |
| Access.DoorAccess.CheckMatch | ESP32_Door_Access/src/main.cpp:1279-1383 | the in-place checks on the recognizer's answer are `Identify` |
| Access.DoorAccess.HandleRecognition | ESP32_Door_Access/src/main.cpp:1239-1385 | the in-place cycle is `RecognitionStep`, on the window, the gate and the door at `now`, with the requested entry logged at `logNow` |
| Enrollment.IdleValid | ESP32_Door_Access/src/main.cpp:127-134 | the boot globals satisfy the enrollment invariant |
| Enrollment.StartKeepsValid | ESP32_Door_Access/src/main.cpp:503-525 | a start keeps the invariant, enrolls the trimmed name with no steps, and changes nothing when refused |
| Enrollment.CancelKeepsValid | ESP32_Door_Access/src/main.cpp:528-534 | a cancel keeps the invariant and a pending completion |
| Enrollment.StepKeepsValid | ESP32_Door_Access/src/main.cpp:1157-1197 | a step keeps the invariant and is no change, one step more, or the completion |
| Enrollment.ThreeAcceptedStepsComplete | ESP32_Door_Access/src/main.cpp:1177-1197 | a start and three accepted enrolls complete the trimmed name, not earlier |
| Enrollment.CompletionReportedOnce | ESP32_Door_Access/src/main.cpp:581-590 | the status says complete exactly when the flag is set, and after that reply it no longer does |
| Enrollment.StartKeepsPendingCompletion | ESP32_Door_Access/src/main.cpp:518-520 | a new start still lets the unreported completion be reported |
| Enrollment.Enroller.constructor | ESP32_Door_Access/src/main.cpp:127-134 | the enrollment globals start idle |
| Enrollment.Enroller.StartEnrollment | ESP32_Door_Access/src/main.cpp:503-525 | the in-place start is `Start`, with its reply |
| Enrollment.Enroller.CancelEnrollment | ESP32_Door_Access/src/main.cpp:528-534 | the in-place cancel is `Cancel` |
| Enrollment.Enroller.HandleEnrollment | ESP32_Door_Access/src/main.cpp:1157-1201 | the in-place step is `EnrollStep` |
| Enrollment.Enroller.ReportStatus | ESP32_Door_Access/src/main.cpp:577-609 | the reply is `StatusOf` and the flag is cleared |
| Enrollment.ValidPrefix | ESP32_Door_Access/src/main.cpp:1020-1022 | the scan reads no more records than the store holds |
| Enrollment.NamesReadCons | ESP32_Door_Access/src/main.cpp:1017-1028 | the names read are the first record's and those after it |
| Enrollment.UniqueFromFresh | ESP32_Door_Access/src/main.cpp:1025-1030 | each listed name is non-empty, not listed before, and read |
| Enrollment.UniqueFromDistinct | ESP32_Door_Access/src/main.cpp:1028-1030 | no name is listed twice |
| Enrollment.UniqueFromComplete | ESP32_Door_Access/src/main.cpp:1025-1030 | every non-empty name read and not yet listed is listed |
| Enrollment.UniqueNamesExact | ESP32_Door_Access/src/main.cpp:1004-1043 | the user list holds each non-empty name read exactly once and nothing else |
| Enrollment.ListUsers | ESP32_Door_Access/src/main.cpp:1006-1043 | the scan loop computes `UniqueNames` |
| Enrollment.KeptAndDeletedPartition | ESP32_Door_Access/src/main.cpp:1102-1124 | deleted + kept equals the records read, no kept record matches, an empty target deletes nothing |
| Enrollment.FilterStep | ESP32_Door_Access/src/main.cpp:1110-1122 | one more record is deleted or kept |
| Enrollment.FilterRecords | ESP32_Door_Access/src/main.cpp:1098-1124 | the filter loop computes `Kept` and `DeletedCount`, and `keptCount` is the records kept |
| Enrollment.DeleteAccounts | ESP32_Door_Access/src/main.cpp:1057-1147 | a successful delete answers counts that add up to the records read and leaves exactly the non-matching records; every other reply leaves the store |
| Enrollment.DeleteByIdFindsNothing | ESP32_Door_Access/src/main.cpp:1064-1072 | an `id` without a `name` deletes nothing and answers "User not found" |

## Left out

- Camera, face detector, recognizer and enrollment library calls. They are foreign
  code, and their results are the `Frame` and `Attempt` inputs.
- The float similarity and its 0.92 threshold. The threshold test is the
  `aboveThreshold` input. The confidence is a natural number in hundredths, which is
  what `%.2f` and `String(float, 2)` print. Negative or non-finite floats are not
  modelled.
- The recognition pacing (one attempt per 1000 ms), the status prints, the live-feed
  pause and its 5-second timeout, `delay`, the LED and the relay pin level. These are
  timing and hardware effects with no bearing on the decisions modelled. A cycle is
  modelled as one that is due with the live feed off.
- The LED blink's delay shows only in the two clock inputs of a cycle. `now` and
  `logNow` are independent inputs. The model does not constrain `logNow` to come at
  least 600 ms after `now` on a grant.
- The `systemStatus` fields (`lastRecognizedUser`, `lastConfidence`, `lastActivity`)
  and `updateSystemStatus`. They are only displayed. The enrolled-user count is the
  `totalUsers` input.
- Wi-Fi, Preferences, MJPEG streaming, profile images, `/api/status`,
  `/api/sdcard/status` and all JSON text. These are network and display plumbing. The
  log query and the user list are modelled as the records they would print.
- Real SD_MMC and SPIFFS byte I/O. The log file is a sequence of lines, and each open
  succeeds or fails as an input. A face record is an id, a NUL-terminated name and the
  two control bytes. The 512-float embedding and a partial trailing record are not
  modelled.
- Line endings written by `println` (CR LF): the header is kept as read, and data
  lines are trimmed by `trim` as modelled. User names that contain a line break are
  not considered.
- The `limit` parameter's text-to-integer conversion. `limit` is an integer input, and
  its default of 100 is `ActivityLog.DefaultLimit`.
- The concurrency of the asynchronous web server with the main loop. Handlers and
  cycles are modelled as running one after another.
- The face-store part of `/api/enroll/clear`: the file removal, `delete_id` over 20
  ids and the recognizer reload. `Access.DoorAccess.ClearFaces` models its effect on
  the window, the gate and the cooldown globals.
- The recognizer reload after a delete (`recognition.begin()`). It is a foreign call.
- Access.Counted: does not model the C `int` overflow of `consecutiveMatches`. Reaching
  it would take more than two billion consecutive matches without a grant.
- `serial_monitor.py` and `camera_pins.h`. They hold no decision logic.
