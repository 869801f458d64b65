/** The enrollment bookkeeping of main.cpp: the step counter `handleEnrollment` advances
    and the one-shot completion flag `/api/enroll/status` reports, and the two scans of
    the face store `/fr.bin` the user endpoints make (the unique-name list of
    `GET /api/users` and the filter of `DELETE /api/users`).

    The recognizer's `enroll` call is a foreign call: its result is the `Attempt` input
    of a step. A face record is taken as already read: its id, its name as the C string
    in `char name[17]` reads, and its two control bytes; the 512-float embedding is
    carried along untouched and left out. */
module Enrollment {
  import Text

  const RequiredEnrollmentSteps := 3

  // ---------------------------------------------------------------------------
  // The enrollment step counter and the completion flag
  // ---------------------------------------------------------------------------

  /** The five enrollment globals. */
  datatype EnrollState = EnrollState(mode: bool, justCompleted: bool, lastUser: string,
                                     currentUser: string, steps: int)

  /** What one enrollment cycle got from the camera, the detector and the recognizer. */
  datatype Attempt = CaptureFailed | NoFaceDetected | EnrollRefused | EnrollAccepted

  /** What `/api/enroll/start` answers. */
  datatype StartReply = MissingName | InvalidName | Started(user: string)

  /** The members of the `/api/enroll/status` reply (its message text left out). */
  datatype Status = Status(active: bool, user: string, stepsCompleted: int, complete: bool)

  const Idle := EnrollState(false, false, "", "", 0)

  /** What the globals always satisfy: a user is being enrolled exactly when the mode
      is on, that name is trimmed, and fewer than three steps are done (none when idle). */
  predicate EnrollValid(st: EnrollState) {
    && 0 <= st.steps < RequiredEnrollmentSteps
    && (st.mode <==> st.currentUser != [])
    && (!st.mode ==> st.steps == 0)
    && (st.currentUser != [] ==>
          !Text.IsSpace(st.currentUser[0]) && !Text.IsSpace(st.currentUser[|st.currentUser| - 1]))
  }

  /** `/api/enroll/start`: the `name` parameter trimmed; refused when missing or blank,
      otherwise enrollment restarts for it with no steps done. The completion flag is
      not touched. */
  function StartReplyTo(hasName: bool, name: string): StartReply {
    if !hasName then MissingName
    else
      var t := Text.Trim(name);
      if |t| == 0 then InvalidName else Started(t)
  }

  function Start(st: EnrollState, hasName: bool, name: string): EnrollState {
    match StartReplyTo(hasName, name)
    case Started(t) => st.(mode := true, currentUser := t, steps := 0)
    case _ => st
  }

  /** `/api/enroll/cancel`. */
  function Cancel(st: EnrollState): EnrollState {
    st.(mode := false, currentUser := "", steps := 0)
  }

  /** `handleEnrollment`: nothing unless enrolling; an accepted enroll call is one step
      more, and the third completes: the flag raised, the user remembered, the mode off. */
  function EnrollStep(st: EnrollState, a: Attempt): EnrollState {
    if !st.mode || |st.currentUser| == 0 || a != EnrollAccepted then st
    else if st.steps + 1 >= RequiredEnrollmentSteps then
      st.(justCompleted := true, lastUser := st.currentUser, mode := false, currentUser := "",
          steps := 0)
    else st.(steps := st.steps + 1)
  }

  /** The status reply: the completion first, then an enrollment in progress, else idle. */
  function StatusOf(st: EnrollState): Status {
    if st.justCompleted then Status(false, st.lastUser, RequiredEnrollmentSteps, true)
    else if st.mode then Status(true, st.currentUser, st.steps, false)
    else Status(false, "", 0, false)
  }

  /** The state after a status reply: the completion flag is cleared once it is sent. */
  function AfterStatus(st: EnrollState): EnrollState {
    st.(justCompleted := false)
  }

  /** The globals stay valid from boot through every handler. */
  lemma IdleValid()
    ensures EnrollValid(Idle)
  {
  }

  lemma StartKeepsValid(st: EnrollState, hasName: bool, name: string)
    requires EnrollValid(st)
    ensures EnrollValid(Start(st, hasName, name))
    ensures StartReplyTo(hasName, name).Started? ==>
      Start(st, hasName, name).mode && Start(st, hasName, name).steps == 0
      && Start(st, hasName, name).currentUser == StartReplyTo(hasName, name).user
    ensures !StartReplyTo(hasName, name).Started? ==> Start(st, hasName, name) == st
  {
    Text.TrimShape(name);
  }

  lemma CancelKeepsValid(st: EnrollState)
    requires EnrollValid(st)
    ensures EnrollValid(Cancel(st)) && !Cancel(st).mode
    ensures Cancel(st).justCompleted == st.justCompleted && Cancel(st).lastUser == st.lastUser
  {
  }

  /** A step is one of: no change (not enrolling, or the attempt failed), one more step
      done, or the completion of the enrollment in progress. */
  lemma StepKeepsValid(st: EnrollState, a: Attempt)
    requires EnrollValid(st)
    ensures var st' := EnrollStep(st, a);
      && EnrollValid(st')
      && (!st.mode || a != EnrollAccepted ==> st' == st)
      && (st.mode && a == EnrollAccepted && st.steps + 1 < RequiredEnrollmentSteps ==>
            st' == st.(steps := st.steps + 1))
      && (st.mode && a == EnrollAccepted && st.steps + 1 == RequiredEnrollmentSteps ==>
            st'.justCompleted && st'.lastUser == st.currentUser && !st'.mode)
  {
  }

  /** A valid start followed by three accepted enroll calls completes the enrollment
      of the trimmed name, and not before the third. */
  lemma ThreeAcceptedStepsComplete(st: EnrollState, name: string)
    requires EnrollValid(st) && |Text.Trim(name)| > 0 && !st.justCompleted
    ensures var s0 := Start(st, true, name);
      var s1 := EnrollStep(s0, EnrollAccepted);
      var s2 := EnrollStep(s1, EnrollAccepted);
      var s3 := EnrollStep(s2, EnrollAccepted);
      && !StatusOf(s1).complete && !StatusOf(s2).complete
      && StatusOf(s3) == Status(false, Text.Trim(name), RequiredEnrollmentSteps, true)
  {
  }

  /** The completion is reported once: the reply after it no longer says complete, and
      a status reply changes nothing but the flag. */
  lemma CompletionReportedOnce(st: EnrollState)
    requires EnrollValid(st)
    ensures StatusOf(st).complete <==> st.justCompleted
    ensures !StatusOf(AfterStatus(st)).complete
    ensures AfterStatus(st) == st.(justCompleted := false)
    ensures StatusOf(st).active ==> StatusOf(st).stepsCompleted < RequiredEnrollmentSteps
  {
  }

  /** A new start does not withdraw a completion nobody has asked for yet: the next
      status reply still reports the previous user as enrolled. */
  lemma StartKeepsPendingCompletion(st: EnrollState, name: string)
    requires st.justCompleted
    ensures StatusOf(Start(st, true, name)) == Status(false, st.lastUser, RequiredEnrollmentSteps, true)
  {
  }

  /** The controller's copy of the five globals. */
  class Enroller {
    var enrollmentMode: bool
    var enrollmentJustCompleted: bool
    var lastEnrolledUser: string
    var currentEnrollmentUser: string
    var enrollmentSteps: int

    function State(): EnrollState
      reads this
    {
      EnrollState(enrollmentMode, enrollmentJustCompleted, lastEnrolledUser,
                  currentEnrollmentUser, enrollmentSteps)
    }

    constructor ()
      ensures State() == Idle
    {
      enrollmentMode, enrollmentJustCompleted := false, false;
      lastEnrolledUser, currentEnrollmentUser := "", "";
      enrollmentSteps := 0;
    }

    method StartEnrollment(hasName: bool, name: string) returns (reply: StartReply)
      modifies this
      ensures reply == StartReplyTo(hasName, name)
      ensures State() == Start(old(State()), hasName, name)
    {
      if !hasName {
        return MissingName;
      }
      var userName := Text.Trim(name);
      if |userName| == 0 {
        return InvalidName;
      }
      enrollmentMode := true;
      currentEnrollmentUser := userName;
      enrollmentSteps := 0;
      reply := Started(userName);
    }

    method CancelEnrollment()
      modifies this
      ensures State() == Cancel(old(State()))
    {
      enrollmentMode := false;
      currentEnrollmentUser := "";
      enrollmentSteps := 0;
    }

    method HandleEnrollment(a: Attempt)
      modifies this
      ensures State() == EnrollStep(old(State()), a)
    {
      if !enrollmentMode || |currentEnrollmentUser| == 0 {
        return;
      }
      if a == CaptureFailed || a == NoFaceDetected || a == EnrollRefused {
        return;
      }
      enrollmentSteps := enrollmentSteps + 1;
      if enrollmentSteps >= RequiredEnrollmentSteps {
        enrollmentJustCompleted := true;
        lastEnrolledUser := currentEnrollmentUser;
        enrollmentMode := false;
        currentEnrollmentUser := "";
        enrollmentSteps := 0;
      }
    }

    method ReportStatus() returns (status: Status)
      modifies this
      ensures status == StatusOf(old(State()))
      ensures State() == AfterStatus(old(State()))
    {
      if enrollmentJustCompleted {
        status := Status(false, lastEnrolledUser, RequiredEnrollmentSteps, true);
        enrollmentJustCompleted := false;
      } else if enrollmentMode {
        status := Status(true, currentEnrollmentUser, enrollmentSteps, false);
      } else {
        status := Status(false, "", 0, false);
      }
    }
  }

  // ---------------------------------------------------------------------------
  // The face store scans
  // ---------------------------------------------------------------------------

  /** One `enrolled_face_t` record as read from `/fr.bin` (the embedding left out). */
  datatype FaceRecord = FaceRecord(id: int, name: string, ctrl0: int, ctrl1: int)

  /** A record whose control bytes are `0x14 0x08`; the first other one ends every scan. */
  predicate CtrlValid(r: FaceRecord) {
    r.ctrl0 == 0x14 && r.ctrl1 == 0x08
  }

  /** The records a scan reads: those before the first bad control bytes. */
  function ValidPrefix(rs: seq<FaceRecord>): (vp: seq<FaceRecord>)
    ensures |vp| <= |rs|
  {
    if rs == [] || !CtrlValid(rs[0]) then [] else [rs[0]] + ValidPrefix(rs[1..])
  }

  /** The names of `GET /api/users`: the non-empty names of the records read, each at its
      first occurrence; `seen` holds the names already listed. */
  function UniqueFrom(rs: seq<FaceRecord>, seen: set<string>): seq<string> {
    if rs == [] || !CtrlValid(rs[0]) then []
    else
      var n := rs[0].name;
      if n == "" || n in seen then UniqueFrom(rs[1..], seen)
      else [n] + UniqueFrom(rs[1..], seen + {n})
  }

  function UniqueNames(rs: seq<FaceRecord>): seq<string> {
    UniqueFrom(rs, {})
  }

  /** The names the records read carry, empty ones included. */
  function NamesRead(rs: seq<FaceRecord>): set<string> {
    var vp := ValidPrefix(rs);
    set i | 0 <= i < |vp| :: vp[i].name
  }

  /** The names read are the first record's name and those read after it. */
  lemma NamesReadCons(rs: seq<FaceRecord>)
    requires rs != [] && CtrlValid(rs[0])
    ensures NamesRead(rs) == {rs[0].name} + NamesRead(rs[1..])
  {
    var vp, tail := ValidPrefix(rs), ValidPrefix(rs[1..]);
    assert vp == [rs[0]] + tail;
    forall x | x in NamesRead(rs)
      ensures x in {rs[0].name} + NamesRead(rs[1..])
    {
      var i :| 0 <= i < |vp| && vp[i].name == x;
      if i > 0 {
        assert tail[i - 1].name == x;
      }
    }
    forall x | x in NamesRead(rs[1..])
      ensures x in NamesRead(rs)
    {
      var i :| 0 <= i < |tail| && tail[i].name == x;
      assert vp[i + 1].name == x;
    }
    assert vp[0].name == rs[0].name;
  }

  /** What `UniqueFrom` lists is non-empty, not already seen, and read. */
  lemma {:induction false} UniqueFromFresh(rs: seq<FaceRecord>, seen: set<string>)
    ensures forall i :: 0 <= i < |UniqueFrom(rs, seen)| ==>
      UniqueFrom(rs, seen)[i] != "" && UniqueFrom(rs, seen)[i] !in seen
      && UniqueFrom(rs, seen)[i] in NamesRead(rs)
    decreases |rs|
  {
    if rs != [] && CtrlValid(rs[0]) {
      var n := rs[0].name;
      NamesReadCons(rs);
      if n == "" || n in seen {
        UniqueFromFresh(rs[1..], seen);
      } else {
        var t := UniqueFrom(rs[1..], seen + {n});
        UniqueFromFresh(rs[1..], seen + {n});
        var u := [n] + t;
        assert UniqueFrom(rs, seen) == u;
        forall i | 0 <= i < |u|
          ensures u[i] != "" && u[i] !in seen && u[i] in NamesRead(rs)
        {
          if i > 0 {
            assert u[i] == t[i - 1];
          }
        }
      }
    }
  }

  /** `UniqueFrom` lists no name twice. */
  lemma {:induction false} UniqueFromDistinct(rs: seq<FaceRecord>, seen: set<string>)
    ensures forall i, j :: 0 <= i < j < |UniqueFrom(rs, seen)| ==>
      UniqueFrom(rs, seen)[i] != UniqueFrom(rs, seen)[j]
    decreases |rs|
  {
    if rs != [] && CtrlValid(rs[0]) {
      var n := rs[0].name;
      if n == "" || n in seen {
        UniqueFromDistinct(rs[1..], seen);
      } else {
        var t := UniqueFrom(rs[1..], seen + {n});
        UniqueFromDistinct(rs[1..], seen + {n});
        UniqueFromFresh(rs[1..], seen + {n});
        var u := [n] + t;
        assert UniqueFrom(rs, seen) == u;
        forall i, j | 0 <= i < j < |u|
          ensures u[i] != u[j]
        {
          assert u[j] == t[j - 1];
          if i > 0 {
            assert u[i] == t[i - 1];
          }
        }
      }
    }
  }

  /** Every non-empty name read, not already seen, is listed. */
  lemma {:induction false} UniqueFromComplete(rs: seq<FaceRecord>, seen: set<string>, x: string)
    requires x != "" && x !in seen && x in NamesRead(rs)
    ensures x in UniqueFrom(rs, seen)
    decreases |rs|
  {
    var vp := ValidPrefix(rs);
    var i :| 0 <= i < |vp| && vp[i].name == x;
    assert rs != [] && CtrlValid(rs[0]);
    var n := rs[0].name;
    if n != x {
      var tail := ValidPrefix(rs[1..]);
      assert vp == [rs[0]] + tail;
      assert tail[i - 1].name == x;
      assert x in NamesRead(rs[1..]);
      if n == "" || n in seen {
        UniqueFromComplete(rs[1..], seen, x);
      } else {
        UniqueFromComplete(rs[1..], seen + {n}, x);
      }
    }
  }

  /** The user list holds each non-empty name read exactly once, and nothing else. */
  lemma UniqueNamesExact(rs: seq<FaceRecord>)
    ensures var u := UniqueNames(rs);
      && (forall i, j :: 0 <= i < j < |u| ==> u[i] != u[j])
      && (forall x :: x in u <==> x != "" && x in NamesRead(rs))
  {
    var u := UniqueNames(rs);
    UniqueFromFresh(rs, {});
    UniqueFromDistinct(rs, {});
    forall x | x in u
      ensures x != "" && x in NamesRead(rs)
    {
      var i :| 0 <= i < |u| && u[i] == x;
    }
    forall x | x != "" && x in NamesRead(rs)
      ensures x in u
    {
      UniqueFromComplete(rs, {}, x);
    }
  }

  /** The scan of `GET /api/users`; the `id` it prints is the position in this list. */
  method ListUsers(records: seq<FaceRecord>) returns (names: seq<string>)
    ensures names == UniqueNames(records)
  {
    names := [];
    var seenNames: set<string> := {};
    var i := 0;
    while i < |records|
      invariant 0 <= i <= |records|
      invariant names + UniqueFrom(records[i..], seenNames) == UniqueNames(records)
      decreases |records| - i
    {
      var enrolled := records[i];
      assert records[i..][1..] == records[i + 1..];
      if !CtrlValid(enrolled) {
        break;
      }
      i := i + 1;
      if |enrolled.name| == 0 {
        continue;
      }
      if enrolled.name in seenNames {
        continue;
      }
      seenNames := seenNames + {enrolled.name};
      names := names + [enrolled.name];
    }
    if i < |records| {
      assert UniqueFrom(records[i..], seenNames) == [];
    }
  }

  /** The delete test: a non-empty target name equal to the record's name. */
  predicate ShouldDelete(r: FaceRecord, target: string) {
    |target| > 0 && r.name == target
  }

  /** The records the delete writes to the temporary file, in their order: those read
      that do not match. */
  function Kept(rs: seq<FaceRecord>, target: string): seq<FaceRecord> {
    if rs == [] || !CtrlValid(rs[0]) then []
    else (if ShouldDelete(rs[0], target) then [] else [rs[0]]) + Kept(rs[1..], target)
  }

  /** The number of records read that the delete drops. */
  function DeletedCount(rs: seq<FaceRecord>, target: string): nat {
    if rs == [] || !CtrlValid(rs[0]) then 0
    else (if ShouldDelete(rs[0], target) then 1 else 0) + DeletedCount(rs[1..], target)
  }

  /** Every record read is either deleted or kept, the kept ones are exactly those not
      matching, and an empty target deletes nothing. */
  lemma {:induction false} KeptAndDeletedPartition(rs: seq<FaceRecord>, target: string)
    ensures |Kept(rs, target)| + DeletedCount(rs, target) == |ValidPrefix(rs)|
    ensures forall i :: 0 <= i < |Kept(rs, target)| ==> !ShouldDelete(Kept(rs, target)[i], target)
    ensures |target| == 0 ==> Kept(rs, target) == ValidPrefix(rs) && DeletedCount(rs, target) == 0
    decreases |rs|
  {
    if rs != [] && CtrlValid(rs[0]) {
      KeptAndDeletedPartition(rs[1..], target);
      var k := Kept(rs, target);
      var tail := Kept(rs[1..], target);
      if !ShouldDelete(rs[0], target) {
        assert k == [rs[0]] + tail;
        forall i | 0 <= i < |k|
          ensures !ShouldDelete(k[i], target)
        {
          if i > 0 {
            assert k[i] == tail[i - 1];
          }
        }
      }
    }
  }

  /** One more record read, from position `i`. */
  lemma FilterStep(rs: seq<FaceRecord>, i: int, target: string)
    requires 0 <= i < |rs| && CtrlValid(rs[i])
    ensures Kept(rs[i..], target) ==
      (if ShouldDelete(rs[i], target) then [] else [rs[i]]) + Kept(rs[i + 1..], target)
    ensures DeletedCount(rs[i..], target) ==
      (if ShouldDelete(rs[i], target) then 1 else 0) + DeletedCount(rs[i + 1..], target)
  {
    assert rs[i..][1..] == rs[i + 1..];
  }

  /** The filter loop of `DELETE /api/users`: reads whole records until the first bad
      control bytes, writes every record that does not match, counts both. */
  method FilterRecords(records: seq<FaceRecord>, targetName: string)
    returns (kept: seq<FaceRecord>, deletedCount: int, keptCount: int)
    ensures kept == Kept(records, targetName)
    ensures deletedCount == DeletedCount(records, targetName)
    ensures keptCount == |kept|
  {
    kept, deletedCount, keptCount := [], 0, 0;
    var i := 0;
    while i < |records|
      invariant 0 <= i <= |records|
      invariant kept + Kept(records[i..], targetName) == Kept(records, targetName)
      invariant deletedCount + DeletedCount(records[i..], targetName) == DeletedCount(records, targetName)
      invariant keptCount == |kept|
      decreases |records| - i
    {
      var enrolled := records[i];
      if !CtrlValid(enrolled) {
        break;
      }
      FilterStep(records, i, targetName);
      ghost var rest := Kept(records[i + 1..], targetName);
      if |targetName| > 0 && enrolled.name == targetName {
        assert Kept(records[i..], targetName) == rest;
        deletedCount := deletedCount + 1;
      } else {
        assert (kept + [enrolled]) + rest == kept + ([enrolled] + rest);
        kept := kept + [enrolled];
        keptCount := keptCount + 1;
      }
      i := i + 1;
    }
    if i < |records| {
      assert Kept(records[i..], targetName) == [];
    }
  }

  /** What `DELETE /api/users` answers. */
  datatype DeleteReply =
    | MissingParameter          // neither `id` nor `name`: 400
    | CannotOpenFaces           // `/fr.bin` does not open: 500
    | CannotCreateTemp          // `/fr_temp.bin` does not open: 500
    | UserNotFound              // nothing matched: 404, the store left alone
    | DeletedRecords(deleted: nat, remaining: nat)

  /** Whether each of the two opens succeeds. */
  datatype SpiffsIo = SpiffsIo(readOpens: bool, tempOpens: bool)

  /** The whole handler: its reply and the face store it leaves. Only `name` selects
      records; `id` is parsed but no record is compared with it. */
  function DeleteUser(store: seq<FaceRecord>, hasId: bool, hasName: bool, name: string,
                      io: SpiffsIo): (DeleteReply, seq<FaceRecord>)
  {
    if !hasId && !hasName then (MissingParameter, store)
    else if !io.readOpens then (CannotOpenFaces, store)
    else if !io.tempOpens then (CannotCreateTemp, store)
    else
      var target := if hasName then name else "";
      var deleted := DeletedCount(store, target);
      if deleted == 0 then (UserNotFound, store)
      else
        var kept := Kept(store, target);
        (DeletedRecords(deleted, |kept|), kept)
  }

  /** A successful delete reports counts that add up to the records read, and leaves
      exactly the records read that do not carry the name. */
  lemma DeleteAccounts(store: seq<FaceRecord>, hasId: bool, hasName: bool, name: string,
                       io: SpiffsIo)
    ensures var (reply, store') := DeleteUser(store, hasId, hasName, name, io);
      && (reply.DeletedRecords? ==>
            && hasName && |name| > 0
            && reply.deleted + reply.remaining == |ValidPrefix(store)|
            && store' == Kept(store, name) && |store'| == reply.remaining
            && forall i :: 0 <= i < |store'| ==> store'[i].name != name)
      && (!reply.DeletedRecords? ==> store' == store)
  {
    var target := if hasName then name else "";
    KeptAndDeletedPartition(store, target);
  }

  /** A request with an `id` and no `name` never deletes anything: the store is left
      alone and the reply says the user was not found (when both opens succeed). */
  lemma DeleteByIdFindsNothing(store: seq<FaceRecord>, name: string, io: SpiffsIo)
    requires io.readOpens && io.tempOpens
    ensures DeleteUser(store, true, false, name, io) == (UserNotFound, store)
  {
    KeptAndDeletedPartition(store, "");
  }
}
