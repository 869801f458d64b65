/** The access decision of main.cpp: one recognition cycle of `handleRecognition`
    (store the face sample, the name and confidence checks, the three-match
    confirmation gate, the liveness check, the same-user cooldown and the grant), the
    door relay timer of `unlockDoor` and `loop`, and the manual unlock.

    Camera capture, face detection and recognition are foreign calls: their results
    are the `Frame` input of a cycle. `millis()` is two inputs: `now`, the reading of the
    cooldown test, the grant and `unlockDoor`, and `logNow`, the reading `logActivity`
    stamps its entry with (on a grant it is taken after the 600 ms LED blink). The 0.92
    similarity threshold is the `aboveThreshold` flag of a match. */
module Access {
  import opened Rings
  import opened Clock
  import opened Liveness
  import opened ActivityLog
  import Text

  const RecognitionConfirmCount := 3   // matches in a row before the liveness check
  const SameUserCooldown := 5000       // ms before the same user is let in again
  const DoorUnlockDuration := 3000     // ms the relay stays energised

  /** What `recognition.recognize()` reports for a detected face. */
  datatype Recognition =
    | Recognized(name: string, aboveThreshold: bool, confidence: nat)
    | NotRecognized

  /** What the camera and the detector deliver in one cycle. */
  datatype Frame =
    | NoCapture                              // `camera.capture()` failed
    | NoFace                                 // no face detected
    | Face(sample: Sample, recognition: Recognition)

  /** The four globals of the confirmation gate and the cooldown. */
  datatype Gate = Gate(lastConfirmedUser: string, consecutiveMatches: int,
                       lastAccessUser: string, lastAccessTime: Millis)

  /** `isDoorUnlocked` and `doorUnlockTime`. */
  datatype Door = Door(unlocked: bool, unlockTime: Millis)

  /** The actions `handleRecognition` logs. */
  datatype Action = AccessGranted | DeniedLivenessFail | DeniedLowConfidence | DeniedNotEnrolled

  /** The action as it is written into the log. */
  function ActionName(a: Action): string {
    match a
    case AccessGranted => "ACCESS_GRANTED"
    case DeniedLivenessFail => "DENIED_LIVENESS_FAIL"
    case DeniedLowConfidence => "DENIED_LOW_CONFIDENCE"
    case DeniedNotEnrolled => "DENIED_NOT_ENROLLED"
  }

  /** No action name holds a comma, so each is one field of a CSV line. */
  lemma ActionNameNoComma(a: Action)
    ensures NoComma(ActionName(a))
  {
    var s := ActionName(a);
    forall i | 0 <= i < |s|
      ensures s[i] != ','
    {
      match a
      case AccessGranted =>
      case DeniedLivenessFail =>
      case DeniedLowConfidence =>
      case DeniedNotEnrolled =>
    }
  }

  /** A call of `logActivity` the cycle makes: user, action, success, confidence. */
  datatype LogRequest = LogRequest(user: string, action: Action, success: bool, confidence: nat)

  /** Where a cycle ended. */
  datatype Outcome =
    | NotCaptured
    | FaceLost
    | NoUsers
    | NotEnrolled
    | NameRejected
    | LowConfidence
    | Confirming
    | LivenessFailed(verdict: Verdict)
    | CooldownActive
    | Granted

  /** The state one cycle leaves and what it asked the log to record. */
  datatype Cycle = Cycle(window: Window, gate: Gate, door: Door, log: Option<LogRequest>,
                         outcome: Outcome)

  /** Names the recognizer can return for an empty database slot. */
  predicate RejectedName(name: string) {
    |name| == 0 || name == "empty" || name == "unknown"
  }

  /** The gate as every rejection leaves it: no confirmed user, no matches. */
  function Cleared(g: Gate): Gate {
    g.(consecutiveMatches := 0, lastConfirmedUser := "")
  }

  /** `unlockDoor`: the relay on, the unlock instant recorded. */
  function Unlock(now: Millis): (d: Door)
    ensures d.unlocked && d.unlockTime == now
  {
    Door(true, now)
  }

  /** The relock test of `loop`: an unlocked door locks once more than 3000 ms have
      passed since it was unlocked. */
  function Relock(d: Door, now: Millis): (d': Door)
    ensures d'.unlocked <==> d.unlocked && Elapsed(now, d.unlockTime) <= DoorUnlockDuration
    ensures d'.unlockTime == d.unlockTime
  {
    if d.unlocked && Elapsed(now, d.unlockTime) > DoorUnlockDuration then d.(unlocked := false) else d
  }

  /** The cooldown test: the same user as the last grant, less than 5000 ms after it. */
  predicate InCooldown(g: Gate, name: string, now: Millis) {
    name == g.lastAccessUser && Elapsed(now, g.lastAccessTime) < SameUserCooldown
  }

  /** The gate as the firmware starts it and as `/api/enroll/clear` leaves it: no user
      locked in, no matches, no previous grant. */
  const ResetGate := Gate("", 0, "", 0)

  /** The match counter after an accepted name: one more for the same name, otherwise
      the new name locked in with one match. */
  function Counted(g: Gate, name: string): (g': Gate)
    ensures g'.lastConfirmedUser == name
    ensures g'.lastAccessUser == g.lastAccessUser && g'.lastAccessTime == g.lastAccessTime
  {
    if name == g.lastConfirmedUser then g.(consecutiveMatches := g.consecutiveMatches + 1)
    else g.(consecutiveMatches := 1, lastConfirmedUser := name)
  }

  /** The history after an accepted name: as stored for the same name, otherwise
      restarted from the current sample alone. */
  function CountedWindow(w: Window, g: Gate, name: string, s: Sample): (w': Window)
    requires WindowValid(w)
    ensures WindowValid(w')
  {
    if name == g.lastConfirmedUser then w else ReseedWindow(w, s)
  }

  /** The part of a cycle after the name and confidence checks: count, wait for three
      matches, check liveness, check the cooldown, grant. `w` already holds the sample. */
  function Decide(w: Window, g: Gate, d: Door, name: string, confidence: nat, s: Sample,
                  now: Millis): (c: Cycle)
    requires WindowValid(w)
    ensures WindowValid(c.window)
  {
    var g' := Counted(g, name);
    var w' := CountedWindow(w, g, name, s);
    if g'.consecutiveMatches < RecognitionConfirmCount then
      Cycle(w', g', d, None, Confirming)
    else
      var v := Analyze(w');
      if v != Live then
        Cycle(w', g', d, Some(LogRequest(name, DeniedLivenessFail, false, confidence)),
              LivenessFailed(v))
      else if InCooldown(g', name, now) then
        Cycle(w', g', d, None, CooldownActive)
      else
        Cycle(ResetWindow(w'), Gate("", 0, name, now), Unlock(now),
              Some(LogRequest(name, AccessGranted, true, confidence)), Granted)
  }

  /** The part of a cycle after the sample is stored, with users enrolled: the name and
      confidence checks, then the gate. `w` already holds the sample. */
  function Identify(w: Window, g: Gate, d: Door, s: Sample, r: Recognition, now: Millis): (c: Cycle)
    requires WindowValid(w)
    ensures WindowValid(c.window)
  {
    match r
    case NotRecognized =>
      Cycle(ResetWindow(w), Cleared(g), d,
            Some(LogRequest("Unknown", DeniedNotEnrolled, false, 0)), NotEnrolled)
    case Recognized(name, above, confidence) =>
      if RejectedName(name) then Cycle(ResetWindow(w), Cleared(g), d, None, NameRejected)
      else if !above then
        Cycle(ResetWindow(w), Cleared(g), d,
              Some(LogRequest(name, DeniedLowConfidence, false, confidence)), LowConfidence)
      else Decide(w, g, d, name, confidence, s, now)
  }

  /** One cycle of `handleRecognition` once it is due and the live feed is off. */
  function RecognitionStep(w: Window, g: Gate, d: Door, frame: Frame, totalUsers: int,
                           now: Millis): (c: Cycle)
    requires WindowValid(w)
    ensures WindowValid(c.window)
  {
    match frame
    case NoCapture => Cycle(w, g, d, None, NotCaptured)
    case NoFace => Cycle(ResetWindow(w), g, d, None, FaceLost)
    case Face(s, r) =>
      var w1 := StoreSample(w, s);
      if totalUsers == 0 then Cycle(w1, g, d, None, NoUsers)
      else Identify(w1, g, d, s, r, now)
  }

  /** What the cycle's `logActivity` call (if any) does to the log, stamped with the
      reading `logNow` that `logActivity` takes itself. On a grant that reading comes
      after the LED blink of `unlockDoor`, so it is a separate input from the cycle's
      `now`. */
  function Logged(st: LogState, io: Io, req: Option<LogRequest>, logNow: Millis): (st': LogState)
    requires LogValid(st)
    ensures LogValid(st')
  {
    match req
    case None => st
    case Some(q) => LogStep(st, io, Entry(q.user, ActionName(q.action), q.success, q.confidence, logNow))
  }

  /** An accepted match: a face, users enrolled, a name that is not rejected, above
      the threshold. */
  predicate AcceptedMatch(frame: Frame, totalUsers: int) {
    && frame.Face? && totalUsers != 0 && frame.recognition.Recognized?
    && !RejectedName(frame.recognition.name) && frame.recognition.aboveThreshold
  }

  // ---------------------------------------------------------------------------
  // Properties of a cycle
  // ---------------------------------------------------------------------------

  /** The outcomes that reach the confirmation gate. */
  predicate Gated(o: Outcome) {
    o == Confirming || o.LivenessFailed? || o == CooldownActive || o == Granted
  }

  /** What the part after the name checks decides: wait below three matches, deny on a
      failed liveness check, end silently in the cooldown, grant otherwise; everything
      but a grant keeps the door and the counted gate and history. */
  lemma DecideOutcomes(w: Window, g: Gate, d: Door, name: string, confidence: nat, s: Sample,
                       now: Millis)
    requires WindowValid(w)
    ensures var c, g', w' := Decide(w, g, d, name, confidence, s, now), Counted(g, name),
                             CountedWindow(w, g, name, s);
      && Gated(c.outcome)
      && (c.outcome == Confirming <==> g'.consecutiveMatches < RecognitionConfirmCount)
      && (c.outcome.LivenessFailed? <==>
            g'.consecutiveMatches >= RecognitionConfirmCount && Analyze(w') != Live)
      && (c.outcome == Granted <==>
            g'.consecutiveMatches >= RecognitionConfirmCount && Analyze(w') == Live
            && !InCooldown(g', name, now))
      && (c.outcome != Granted ==> c.gate == g' && c.window == w' && c.door == d)
      && (c.outcome.LivenessFailed? ==>
            c.log == Some(LogRequest(name, DeniedLivenessFail, false, confidence))
            && c.outcome.verdict == Analyze(w'))
      && (c.outcome == Confirming || c.outcome == CooldownActive ==> c.log == None)
      && (c.outcome == Granted ==>
            && c.gate == Gate("", 0, name, now) && c.door == Unlock(now)
            && Samples(c.window) == []
            && c.log == Some(LogRequest(name, AccessGranted, true, confidence)))
  {
    var g', w' := Counted(g, name), CountedWindow(w, g, name, s);
    if g'.consecutiveMatches >= RecognitionConfirmCount && Analyze(w') == Live
       && !InCooldown(g', name, now) {
      assert Decide(w, g, d, name, confidence, s, now) ==
        Cycle(ResetWindow(w'), Gate("", 0, name, now), Unlock(now),
              Some(LogRequest(name, AccessGranted, true, confidence)), Granted);
    }
  }

  /** An accepted match is decided by the gate on the history with the sample stored. */
  lemma AcceptedIsDecided(w: Window, g: Gate, d: Door, frame: Frame, totalUsers: int, now: Millis)
    requires WindowValid(w) && AcceptedMatch(frame, totalUsers)
    ensures RecognitionStep(w, g, d, frame, totalUsers, now) ==
      Decide(StoreSample(w, frame.sample), g, d, frame.recognition.name,
             frame.recognition.confidence, frame.sample, now)
  {
  }

  /** Every other cycle ends before the gate: the door is kept, the cooldown globals
      are kept, and the gate is kept (no face, or no users) or cleared (a rejection). */
  lemma RejectionOutcomes(w: Window, g: Gate, d: Door, frame: Frame, totalUsers: int, now: Millis)
    requires WindowValid(w) && !AcceptedMatch(frame, totalUsers)
    ensures var c := RecognitionStep(w, g, d, frame, totalUsers, now);
      && !Gated(c.outcome) && c.door == d
      && (!frame.Face? || totalUsers == 0 ==> c.gate == g && c.log == None)
      && (frame.Face? && totalUsers != 0 ==> c.gate == Cleared(g) && Samples(c.window) == [])
  {
    match frame
    case NoCapture =>
    case NoFace =>
    case Face(s, r) =>
      if totalUsers != 0 {
        assert ResetWindow(StoreSample(w, s)) == RecognitionStep(w, g, d, frame, totalUsers, now).window;
      }
  }

  /** The match counter only ever goes up by one (same accepted name), restarts at one
      with the new name locked in and the history reseeded to the current sample
      alone (different accepted name), drops to zero with no user locked in (rejected
      name, low confidence, unknown face, grant), or stays (no face, no users). */
  lemma CounterTransitions(w: Window, g: Gate, d: Door, frame: Frame, totalUsers: int, now: Millis)
    requires WindowValid(w)
    ensures var c := RecognitionStep(w, g, d, frame, totalUsers, now);
      var m := c.gate.consecutiveMatches;
      && (!frame.Face? || totalUsers == 0 ==> c.gate == g)
      && (AcceptedMatch(frame, totalUsers) && frame.recognition.name == g.lastConfirmedUser
            && c.outcome != Granted
          ==> m == g.consecutiveMatches + 1 && c.gate.lastConfirmedUser == g.lastConfirmedUser)
      && (AcceptedMatch(frame, totalUsers) && frame.recognition.name != g.lastConfirmedUser
          ==> m == 1 && c.gate.lastConfirmedUser == frame.recognition.name
              && Samples(c.window) == [Recorded(frame.sample)]
              && c.window.index == 1 && c.outcome == Confirming)
      && (frame.Face? && totalUsers != 0 && !AcceptedMatch(frame, totalUsers)
          ==> m == 0 && c.gate.lastConfirmedUser == "" && Samples(c.window) == [])
      && (c.outcome == Granted ==> m == 0 && c.gate.lastConfirmedUser == "")
  {
    if AcceptedMatch(frame, totalUsers) {
      AcceptedIsDecided(w, g, d, frame, totalUsers, now);
      DecideOutcomes(StoreSample(w, frame.sample), g, d, frame.recognition.name,
                     frame.recognition.confidence, frame.sample, now);
    } else {
      RejectionOutcomes(w, g, d, frame, totalUsers, now);
    }
  }

  /** No unlock and no grant entry unless the name was confirmed by at least three
      matches in a row and the history passed the liveness check; and conversely every
      accepted match that has them, outside the cooldown, is a grant. */
  lemma GrantExactly(w: Window, g: Gate, d: Door, frame: Frame, totalUsers: int, now: Millis)
    requires WindowValid(w)
    ensures var c := RecognitionStep(w, g, d, frame, totalUsers, now);
      c.outcome == Granted <==>
        && AcceptedMatch(frame, totalUsers)
        && var name := frame.recognition.name;
        && name == g.lastConfirmedUser
        && g.consecutiveMatches + 1 >= RecognitionConfirmCount
        && Analyze(StoreSample(w, frame.sample)) == Live
        && !InCooldown(g, name, now)
  {
    if AcceptedMatch(frame, totalUsers) {
      AcceptedIsDecided(w, g, d, frame, totalUsers, now);
      DecideOutcomes(StoreSample(w, frame.sample), g, d, frame.recognition.name,
                     frame.recognition.confidence, frame.sample, now);
    } else {
      RejectionOutcomes(w, g, d, frame, totalUsers, now);
    }
  }

  /** The door is unlocked, and an `ACCESS_GRANTED` entry requested, exactly in a grant;
      every other cycle leaves the door as it was. */
  lemma UnlockOnlyOnGrant(w: Window, g: Gate, d: Door, frame: Frame, totalUsers: int, now: Millis)
    requires WindowValid(w)
    ensures var c := RecognitionStep(w, g, d, frame, totalUsers, now);
      && (c.outcome == Granted ==> c.door == Unlock(now))
      && (c.outcome != Granted ==> c.door == d)
      && (c.log.Some? && c.log.value.action == AccessGranted <==> c.outcome == Granted)
  {
    if AcceptedMatch(frame, totalUsers) {
      AcceptedIsDecided(w, g, d, frame, totalUsers, now);
      DecideOutcomes(StoreSample(w, frame.sample), g, d, frame.recognition.name,
                     frame.recognition.confidence, frame.sample, now);
    } else {
      RejectionOutcomes(w, g, d, frame, totalUsers, now);
    }
  }

  /** A grant records the user and the instant in the cooldown globals, clears the
      gate and the history, unlocks, and asks for exactly one successful entry. */
  lemma GrantEffects(w: Window, g: Gate, d: Door, frame: Frame, totalUsers: int, now: Millis)
    requires WindowValid(w)
    requires RecognitionStep(w, g, d, frame, totalUsers, now).outcome == Granted
    ensures var c, name := RecognitionStep(w, g, d, frame, totalUsers, now), frame.recognition.name;
      && c.gate == Gate("", 0, name, now)
      && c.door == Door(true, now)
      && Samples(c.window) == []
      && c.log == Some(LogRequest(name, AccessGranted, true, frame.recognition.confidence))
  {
    if AcceptedMatch(frame, totalUsers) {
      AcceptedIsDecided(w, g, d, frame, totalUsers, now);
      DecideOutcomes(StoreSample(w, frame.sample), g, d, frame.recognition.name,
                     frame.recognition.confidence, frame.sample, now);
    } else {
      RejectionOutcomes(w, g, d, frame, totalUsers, now);
    }
  }

  /** A failed liveness check asks for a denial entry but keeps the gate as counted:
      the same user stays locked in with the match count just reached, and the history
      is kept so the next frame can show movement. */
  lemma LivenessFailureKeepsGate(w: Window, g: Gate, d: Door, frame: Frame, totalUsers: int, now: Millis)
    requires WindowValid(w)
    requires RecognitionStep(w, g, d, frame, totalUsers, now).outcome.LivenessFailed?
    ensures var c, name := RecognitionStep(w, g, d, frame, totalUsers, now), frame.recognition.name;
      && AcceptedMatch(frame, totalUsers)
      && c.gate == Counted(g, name)
      && c.gate.consecutiveMatches >= RecognitionConfirmCount
      && c.window == CountedWindow(StoreSample(w, frame.sample), g, name, frame.sample)
      && c.door == d
      && c.log == Some(LogRequest(name, DeniedLivenessFail, false, frame.recognition.confidence))
  {
    if AcceptedMatch(frame, totalUsers) {
      AcceptedIsDecided(w, g, d, frame, totalUsers, now);
      DecideOutcomes(StoreSample(w, frame.sample), g, d, frame.recognition.name,
                     frame.recognition.confidence, frame.sample, now);
    } else {
      RejectionOutcomes(w, g, d, frame, totalUsers, now);
    }
  }

  /** Within the cooldown a further attempt by the same user neither unlocks nor asks
      for a grant entry; once past the three matches and the liveness check it ends
      silently. */
  lemma CooldownIsSilent(w: Window, g: Gate, d: Door, frame: Frame, totalUsers: int, now: Millis)
    requires WindowValid(w)
    requires AcceptedMatch(frame, totalUsers) && InCooldown(g, frame.recognition.name, now)
    ensures var c, name := RecognitionStep(w, g, d, frame, totalUsers, now), frame.recognition.name;
      && c.outcome != Granted && c.door == d
      && (c.outcome == CooldownActive <==>
            Counted(g, name).consecutiveMatches >= RecognitionConfirmCount
            && Analyze(CountedWindow(StoreSample(w, frame.sample), g, name, frame.sample)) == Live)
      && (c.outcome == CooldownActive ==> c.log == None && c.gate == Counted(g, name))
  {
    AcceptedIsDecided(w, g, d, frame, totalUsers, now);
    DecideOutcomes(StoreSample(w, frame.sample), g, d, frame.recognition.name,
                   frame.recognition.confidence, frame.sample, now);
  }

  /** Only a grant changes the cooldown globals, so after a grant to a user at an
      instant they keep saying so until the next grant. */
  lemma CooldownGlobalsOnlySetByGrant(w: Window, g: Gate, d: Door, frame: Frame, totalUsers: int, now: Millis)
    requires WindowValid(w)
    ensures var c := RecognitionStep(w, g, d, frame, totalUsers, now);
      c.outcome != Granted ==>
        c.gate.lastAccessUser == g.lastAccessUser && c.gate.lastAccessTime == g.lastAccessTime
  {
    if AcceptedMatch(frame, totalUsers) {
      AcceptedIsDecided(w, g, d, frame, totalUsers, now);
      DecideOutcomes(StoreSample(w, frame.sample), g, d, frame.recognition.name,
                     frame.recognition.confidence, frame.sample, now);
    } else {
      RejectionOutcomes(w, g, d, frame, totalUsers, now);
    }
  }

  /** With no users enrolled the sample is stored and the cycle ends: nothing else
      changes and nothing is logged. */
  lemma NoUsersOnlyStores(w: Window, g: Gate, d: Door, s: Sample, r: Recognition, now: Millis)
    requires WindowValid(w)
    ensures RecognitionStep(w, g, d, Face(s, r), 0, now) == Cycle(StoreSample(w, s), g, d, None, NoUsers)
  {
  }

  /** A lost face only clears the history; the gate is kept. */
  lemma NoFaceKeepsGate(w: Window, g: Gate, d: Door, totalUsers: int, now: Millis)
    requires WindowValid(w)
    ensures var c := RecognitionStep(w, g, d, NoFace, totalUsers, now);
      c.gate == g && c.door == d && c.log == None && Samples(c.window) == []
  {
  }

  /** Rejected names clear the gate without a log entry; low confidence and unknown
      faces clear it and ask for a denial entry. */
  lemma RejectionsClearGate(w: Window, g: Gate, d: Door, s: Sample, r: Recognition,
                            totalUsers: int, now: Millis)
    requires WindowValid(w) && totalUsers != 0
    ensures var c := RecognitionStep(w, g, d, Face(s, r), totalUsers, now);
      && (r.NotRecognized? ==>
            c.gate == Cleared(g) && c.log == Some(LogRequest("Unknown", DeniedNotEnrolled, false, 0)))
      && (r.Recognized? && RejectedName(r.name) ==> c.gate == Cleared(g) && c.log == None)
      && (r.Recognized? && !RejectedName(r.name) && !r.aboveThreshold ==>
            c.gate == Cleared(g)
            && c.log == Some(LogRequest(r.name, DeniedLowConfidence, false, r.confidence)))
  {
  }

  /** An accepted match for a name that is not locked in, and two more for it, make the
      third match the first liveness check: it sees three samples and fails with too
      few frames, so a grant after an identity change needs a fourth match. */
  lemma ThirdMatchAfterIdentityChangeFails(
    w: Window, g: Gate, d: Door, name: string, s1: Sample, s2: Sample, s3: Sample,
    c1: nat, c2: nat, c3: nat, totalUsers: int, t1: Millis, t2: Millis, t3: Millis)
    requires WindowValid(w) && totalUsers != 0 && !RejectedName(name)
    requires name != g.lastConfirmedUser
    ensures var a := RecognitionStep(w, g, d, Face(s1, Recognized(name, true, c1)), totalUsers, t1);
      var b := RecognitionStep(a.window, a.gate, a.door, Face(s2, Recognized(name, true, c2)), totalUsers, t2);
      var c := RecognitionStep(b.window, b.gate, b.door, Face(s3, Recognized(name, true, c3)), totalUsers, t3);
      && a.outcome == Confirming && b.outcome == Confirming
      && c.outcome == LivenessFailed(TooFewFrames)
  {
    var f1 := Face(s1, Recognized(name, true, c1));
    var a := RecognitionStep(w, g, d, f1, totalUsers, t1);
    AcceptedIsDecided(w, g, d, f1, totalUsers, t1);
    assert a.window == ReseedWindow(StoreSample(w, s1), s1);
    assert a.window.count == 1 && a.gate == Counted(g, name) && a.gate.consecutiveMatches == 1;
    var f2 := Face(s2, Recognized(name, true, c2));
    AcceptedIsDecided(a.window, a.gate, a.door, f2, totalUsers, t2);
    var b := RecognitionStep(a.window, a.gate, a.door, f2, totalUsers, t2);
    assert b.window == StoreSample(a.window, s2) && b.window.count == 2;
    assert b.gate.consecutiveMatches == 2 && b.gate.lastConfirmedUser == name;
    var f3 := Face(s3, Recognized(name, true, c3));
    AcceptedIsDecided(b.window, b.gate, b.door, f3, totalUsers, t3);
    assert StoreSample(b.window, s3).count == 3;
    FewFramesFail(StoreSample(b.window, s3));
  }

  /** The relay stays on for the first 3000 ms after an unlock and goes off in the first
      check after that. */
  lemma RelockAfterDuration(t: Millis, now: Millis)
    ensures Relock(Unlock(t), now).unlocked <==> Elapsed(now, t) <= DoorUnlockDuration
    ensures !Relock(Unlock(t), now).unlocked ==> Relock(Relock(Unlock(t), now), now) == Relock(Unlock(t), now)
  {
  }

  /** After the faces are cleared the cooldown blocks no accepted name: every accepted
      name is non-empty, and the last granted user is the empty name. */
  lemma ResetGateHasNoCooldown(name: string, now: Millis)
    requires !RejectedName(name)
    ensures !InCooldown(ResetGate, name, now)
  {
  }

  /** A grant's entry, stamped with `logActivity`'s own reading `logNow`, is what the log
      query then reports first, when the opens succeed, the card file (if the card is
      ready) holds at least its header line, and the user name holds no comma. */
  lemma GrantIsReportedFirst(w: Window, g: Gate, d: Door, frame: Frame, totalUsers: int,
                             now: Millis, logNow: Millis, st: LogState, limit: int)
    requires WindowValid(w) && LogValid(st) && limit >= 1
    requires st.sdReady ==> st.file.Present? && |st.file.lines| > 0
    requires RecognitionStep(w, g, d, frame, totalUsers, now).outcome == Granted
    requires NoComma(frame.recognition.name)
    ensures var c := RecognitionStep(w, g, d, frame, totalUsers, now);
      var io := Io(true, true, true);
      var q := Query(Logged(st, io, c.log, logNow), io, limit);
      |q| > 0 && q[0] == LogView(frame.recognition.name, "ACCESS_GRANTED", true,
                                 Text.CentiToString(frame.recognition.confidence), Text.NatToString(logNow))
  {
    var name, io := frame.recognition.name, Io(true, true, true);
    var c := RecognitionStep(w, g, d, frame, totalUsers, now);
    var e := Entry(name, ActionName(AccessGranted), true, frame.recognition.confidence, logNow);
    assert Logged(st, io, c.log, logNow) == LogStep(st, io, e) by {
      GrantEffects(w, g, d, frame, totalUsers, now);
    }
    ActionNameNoComma(AccessGranted);
    LoggedEntryComesFirst(st, io, e, limit);
  }

  // ---------------------------------------------------------------------------
  // The controller as the source keeps it: globals updated in place
  // ---------------------------------------------------------------------------

  class DoorAccess {
    const history: FaceHistory
    const log: LogStore
    var lastConfirmedUser: string
    var consecutiveMatches: int
    var lastAccessUser: string
    var lastAccessTime: Millis
    var isDoorUnlocked: bool
    var doorUnlockTime: Millis

    function GateView(): Gate
      reads this
    {
      Gate(lastConfirmedUser, consecutiveMatches, lastAccessUser, lastAccessTime)
    }

    function DoorView(): Door
      reads this
    {
      Door(isDoorUnlocked, doorUnlockTime)
    }

    ghost predicate Valid()
      reads this, history, history.slots, log, log.ramLogBuffer
    {
      history.Valid() && log.Valid()
    }

    /** The globals as the firmware starts them. */
    constructor (history: FaceHistory, log: LogStore)
      requires history.Valid() && log.Valid()
      ensures Valid() && this.history == history && this.log == log
      ensures GateView() == ResetGate && DoorView() == Door(false, 0)
    {
      this.history := history;
      this.log := log;
      lastConfirmedUser, consecutiveMatches := "", 0;
      lastAccessUser, lastAccessTime := "", 0;
      isDoorUnlocked, doorUnlockTime := false, 0;
    }

    /** `unlockDoor`: the relay on and the unlock instant recorded. */
    method UnlockDoor(now: Millis)
      modifies this
      ensures DoorView() == Unlock(now) && GateView() == old(GateView())
    {
      isDoorUnlocked := true;
      doorUnlockTime := now;
    }

    /** The relock check at the top of `loop`. */
    method RelockIfDue(now: Millis)
      modifies this
      ensures DoorView() == Relock(old(DoorView()), now) && GateView() == old(GateView())
    {
      if isDoorUnlocked && Elapsed(now, doorUnlockTime) > DoorUnlockDuration {
        isDoorUnlocked := false;
      }
    }

    /** The `/api/door/unlock` handler: an unlock and no log entry. */
    method ManualUnlock(now: Millis)
      requires Valid()
      modifies this
      ensures Valid()
      ensures DoorView() == Unlock(now) && GateView() == old(GateView())
      ensures history.View() == old(history.View()) && log.State() == old(log.State())
    {
      UnlockDoor(now);
    }

    /** The gate and history part of `/api/enroll/clear`: the history cleared, the gate
        and the cooldown globals reset, the door left alone. */
    method ClearFaces()
      requires Valid()
      modifies this, history, history.slots
      ensures Valid()
      ensures history.View() == ResetWindow(old(history.View()))
      ensures GateView() == ResetGate && DoorView() == old(DoorView())
    {
      history.Reset();
      consecutiveMatches := 0;
      lastConfirmedUser := "";
      lastAccessUser := "";
      lastAccessTime := 0;
    }

    /** The match counting: one more match for the name locked in, otherwise the new
        name locked in with one match and the history restarted from the sample. */
    method CountMatch(s: Sample, name: string)
      requires Valid()
      modifies this, history, history.slots
      ensures Valid()
      ensures GateView() == Counted(old(GateView()), name)
      ensures history.View() == CountedWindow(old(history.View()), old(GateView()), name, s)
      ensures DoorView() == old(DoorView())
    {
      if name == lastConfirmedUser {
        consecutiveMatches := consecutiveMatches + 1;
      } else {
        consecutiveMatches := 1;
        lastConfirmedUser := name;
        history.Reseed(s);
      }
    }

    /** The grant: the cooldown globals set, the history and the gate cleared, the door
        unlocked and the `ACCESS_GRANTED` entry logged. */
    method Grant(name: string, confidence: nat, now: Millis, logNow: Millis, io: Io)
      requires Valid()
      modifies this, history, history.slots, log, log.ramLogBuffer
      ensures Valid()
      ensures GateView() == Gate("", 0, name, now) && DoorView() == Unlock(now)
      ensures history.View() == ResetWindow(old(history.View()))
      ensures log.State() == Logged(old(log.State()), io,
                                    Some(LogRequest(name, AccessGranted, true, confidence)), logNow)
    {
      lastAccessUser := name;
      lastAccessTime := now;
      history.Reset();
      consecutiveMatches := 0;
      lastConfirmedUser := "";
      UnlockDoor(now);
      log.LogActivity(name, ActionName(AccessGranted), true, confidence, logNow, io);
    }

    /** The match counting and the checks after it, on an accepted name. */
    method Confirm(s: Sample, name: string, confidence: nat, now: Millis, logNow: Millis, io: Io)
      requires Valid()
      modifies this, history, history.slots, log, log.ramLogBuffer
      ensures Valid()
      ensures var c := Decide(old(history.View()), old(GateView()), old(DoorView()), name,
                              confidence, s, now);
        && history.View() == c.window && GateView() == c.gate && DoorView() == c.door
        && log.State() == Logged(old(log.State()), io, c.log, logNow)
    {
      CountMatch(s, name);
      if consecutiveMatches < RecognitionConfirmCount {
        return;
      }
      var ok, verdict := history.CheckLiveness();
      if !ok {
        log.LogActivity(name, ActionName(DeniedLivenessFail), false, confidence, logNow, io);
        return;
      }
      if name == lastAccessUser && Elapsed(now, lastAccessTime) < SameUserCooldown {
        return;
      }
      Grant(name, confidence, now, logNow, io);
    }

    /** What each rejection does before it returns: the history cleared, no user
        locked in, no matches. */
    method ClearGate()
      requires Valid()
      modifies this, history, history.slots
      ensures Valid()
      ensures history.View() == ResetWindow(old(history.View()))
      ensures GateView() == Cleared(old(GateView())) && DoorView() == old(DoorView())
    {
      history.Reset();
      consecutiveMatches := 0;
      lastConfirmedUser := "";
    }

    /** The checks on what the recognizer reported, with users enrolled and the sample
        already stored. */
    method CheckMatch(s: Sample, r: Recognition, now: Millis, logNow: Millis, io: Io)
      requires Valid()
      modifies this, history, history.slots, log, log.ramLogBuffer
      ensures Valid()
      ensures var c := Identify(old(history.View()), old(GateView()), old(DoorView()), s, r, now);
        && history.View() == c.window && GateView() == c.gate && DoorView() == c.door
        && log.State() == Logged(old(log.State()), io, c.log, logNow)
    {
      match r {
      case NotRecognized =>
        ClearGate();
        log.LogActivity("Unknown", ActionName(DeniedNotEnrolled), false, 0, logNow, io);
      case Recognized(name, above, confidence) =>
        if |name| == 0 || name == "empty" || name == "unknown" {
          ClearGate();
          return;
        }
        if !above {
          ClearGate();
          log.LogActivity(name, ActionName(DeniedLowConfidence), false, confidence, logNow, io);
          return;
        }
        Confirm(s, name, confidence, now, logNow, io);
      }
    }

    /** One cycle of `handleRecognition` once it is due and the live feed is off: `now` is
        the clock for the cooldown, the grant and the unlock; `logNow` is the reading
        `logActivity` stamps its entry with. */
    method HandleRecognition(frame: Frame, totalUsers: int, now: Millis, logNow: Millis, io: Io)
      requires Valid()
      modifies this, history, history.slots, log, log.ramLogBuffer
      ensures Valid()
      ensures var c := RecognitionStep(old(history.View()), old(GateView()), old(DoorView()),
                                       frame, totalUsers, now);
        && history.View() == c.window && GateView() == c.gate && DoorView() == c.door
        && log.State() == Logged(old(log.State()), io, c.log, logNow)
    {
      match frame {
      case NoCapture =>
        return;
      case NoFace =>
        history.Reset();
      case Face(s, r) =>
        history.Store(s);
        if totalUsers == 0 {
          return;
        }
        CheckMatch(s, r, now, logNow, io);
      }
    }
  }
}
