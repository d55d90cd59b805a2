/** The self-contained parts of `src/wc.rs`: decoding of status and
  * schedule codes, the result of `check_wc`, and the callback-baton
  * bookkeeping of `get_update_editor4` and `UpdateEditor`.
  *
  * Native values follow Subversion's `svn_wc.h`: `svn_wc_status_kind`
  * runs from none = 1 to incomplete = 14 in declaration order, and
  * `svn_wc_schedule_t` is normal 0, add 1, delete 2, replace 3. */
module Wc {
  import opened Common
  import opened SvnTypes
  import opened Batons

  // ---------------------------------------------------------------------
  // Status and schedule codes

  datatype StatusKind =
    | StatusNone
    | Unversioned
    | Normal
    | Added
    | Missing
    | Deleted
    | Replaced
    | Modified
    | Merged
    | Conflicted
    | Ignored
    | Obstructed
    | External
    | Incomplete

  /** The `svn_wc_status_kind` value each status is declared with. */
  function StatusCode(k: StatusKind): int {
    match k
    case StatusNone => 1
    case Unversioned => 2
    case Normal => 3
    case Added => 4
    case Missing => 5
    case Deleted => 6
    case Replaced => 7
    case Modified => 8
    case Merged => 9
    case Conflicted => 10
    case Ignored => 11
    case Obstructed => 12
    case External => 13
    case Incomplete => 14
  }

  /** `From<svn_wc_status_kind> for StatusKind`: the fourteen known codes,
    * and any other code reads as none. */
  function StatusKindFromRaw(n: int): StatusKind {
    if n == 2 then Unversioned
    else if n == 3 then Normal
    else if n == 4 then Added
    else if n == 5 then Missing
    else if n == 6 then Deleted
    else if n == 7 then Replaced
    else if n == 8 then Modified
    else if n == 9 then Merged
    else if n == 10 then Conflicted
    else if n == 11 then Ignored
    else if n == 12 then Obstructed
    else if n == 13 then External
    else if n == 14 then Incomplete
    else StatusNone
  }

  /** A code decodes to a status exactly when it is that status's code,
    * or it is unknown and the status is none. */
  lemma StatusKindFromRawExactly(n: int, k: StatusKind)
    ensures StatusKindFromRaw(n) == k <==> n == StatusCode(k) || (k == StatusNone && !(1 <= n <= 14))
  {
  }

  datatype Schedule = ScheduleNormal | ScheduleAdd | ScheduleDelete | ScheduleReplace

  /** The `svn_wc_schedule_t` value of each schedule. */
  function ScheduleCode(s: Schedule): int {
    match s
    case ScheduleNormal => 0
    case ScheduleAdd => 1
    case ScheduleDelete => 2
    case ScheduleReplace => 3
  }

  /** `From<svn_wc_schedule_t> for Schedule`: an unknown code reads as
    * normal. */
  function ScheduleFromRaw(n: int): Schedule {
    if n == 1 then ScheduleAdd
    else if n == 2 then ScheduleDelete
    else if n == 3 then ScheduleReplace
    else ScheduleNormal
  }

  /** A code decodes to a schedule exactly when it is that schedule's code,
    * or it is unknown and the schedule is normal. */
  lemma ScheduleFromRawExactly(n: int, s: Schedule)
    ensures ScheduleFromRaw(n) == s <==> n == ScheduleCode(s) || (s == ScheduleNormal && !(0 <= n <= 3))
  {
  }

  /** `check_wc`, given the native outcome (the working-copy format or the
    * error): format 0 means the path is not a working copy. */
  function CheckWc(native: Result<int>): (r: Result<Option<int>>)
    ensures r.Failure? <==> native.Failure?
    ensures native.Success? ==> (r.value.None? <==> native.value == 0)
    ensures native.Success? && r.value.Some? ==> r.value.value == native.value
  {
    match native
    case Failure(e) => Failure(e)
    case Success(format) => if format == 0 then Success(None) else Success(Some(format))
  }

  // ---------------------------------------------------------------------
  // Update editor batons

  /** The five batons `get_update_editor4` may box, in registration order;
    * a null address stands for an absent callback. */
  function EditorCandidates(fetchDirents: Ptr, conflict: Ptr, external: Ptr, cancel: Ptr, notify: Ptr): seq<Entry> {
    [Entry(fetchDirents, DropFetchDirents), Entry(conflict, DropConflict),
     Entry(external, DropExternal), Entry(cancel, DropCancel), Entry(notify, DropNotify)]
  }

  /** One registration push: the entry is appended when its baton is not
    * null. */
  method PushIfNonNull(batons: seq<Entry>, baton: Ptr, dropper: Dropper) returns (r: seq<Entry>)
    ensures r == batons + NonNullEntries([Entry(baton, dropper)])
  {
    r := batons;
    if baton != NULL {
      r := r + [Entry(baton, dropper)];
    }
  }

  /** Filtering the candidates one by one filters them all. */
  lemma CandidatesOneByOne(c: seq<Entry>)
    requires |c| == 5
    ensures NonNullEntries(c) == NonNullEntries([c[0]]) + NonNullEntries([c[1]]) + NonNullEntries([c[2]])
      + NonNullEntries([c[3]]) + NonNullEntries([c[4]])
  {
    assert c == [c[0]] + [c[1]] + [c[2]] + [c[3]] + [c[4]];
    NonNullEntriesConcat([c[0]] + [c[1]] + [c[2]] + [c[3]], [c[4]]);
    NonNullEntriesConcat([c[0]] + [c[1]] + [c[2]], [c[3]]);
    NonNullEntriesConcat([c[0]] + [c[1]], [c[2]]);
    NonNullEntriesConcat([c[0]], [c[1]]);
  }

  /** The registration pushes of `get_update_editor4`: each non-null baton
    * with its dropper, in the order fetch-dirents, conflict, external,
    * cancel, notify. */
  method CollectBatons(fetchDirents: Ptr, conflict: Ptr, external: Ptr, cancel: Ptr, notify: Ptr)
    returns (batons: seq<Entry>)
    ensures batons == NonNullEntries(EditorCandidates(fetchDirents, conflict, external, cancel, notify))
  {
    batons := PushIfNonNull([], fetchDirents, DropFetchDirents);
    batons := PushIfNonNull(batons, conflict, DropConflict);
    batons := PushIfNonNull(batons, external, DropExternal);
    batons := PushIfNonNull(batons, cancel, DropCancel);
    batons := PushIfNonNull(batons, notify, DropNotify);
    CandidatesOneByOne(EditorCandidates(fetchDirents, conflict, external, cancel, notify));
  }

  /** The target revision reported by `get_update_editor4`: a negative
    * native revision becomes the default revision 0. */
  function TargetRevision(raw: int): (r: Revnum)
    ensures r.value >= 0
    ensures raw >= 0 ==> r.value == raw
    ensures raw < 0 ==> r == Revnum(0)
  {
    match RevnumFromRaw(raw)
    case Some(rev) => rev
    case None => Revnum(0)
  }

  /** An update editor and the callback batons it owns. */
  class UpdateEditor {
    var targetRevision: Revnum
    var callbackBatons: seq<Entry>

    constructor (targetRevision: Revnum, batons: seq<Entry>)
      ensures this.targetRevision == targetRevision && callbackBatons == batons
    {
      this.targetRevision := targetRevision;
      callbackBatons := batons;
    }

    /** `Drop for UpdateEditor`: call the dropper of every non-null baton,
      * in order, then empty the list; `calls` records the dropper calls. */
    method Drop() returns (calls: seq<Entry>)
      modifies this
      ensures calls == NonNullEntries(old(callbackBatons))
      ensures callbackBatons == [] && targetRevision == old(targetRevision)
    {
      calls := [];
      for i := 0 to |callbackBatons|
        invariant calls + NonNullEntries(callbackBatons[i..]) == NonNullEntries(callbackBatons)
      {
        assert callbackBatons[i..][1..] == callbackBatons[i + 1..];
        if callbackBatons[i].baton != NULL {
          calls := calls + [callbackBatons[i]];
        }
      }
      callbackBatons := [];
    }
  }

  /** The baton bookkeeping of `get_update_editor4` as written: the
    * callbacks are boxed before the native call, registered with the
    * editor after it succeeds, and left alone when it fails. */
  function GetUpdateEditorAsWritten(boxed: seq<Entry>, nativeOk: bool): Outcome {
    if nativeOk then Outcome(Some(NonNullEntries(boxed)), []) else Outcome(None, [])
  }

  /** `get_update_editor4` freeing the boxed callbacks when the native call
    * fails. */
  function GetUpdateEditor(boxed: seq<Entry>, nativeOk: bool): (o: Outcome)
    ensures nativeOk ==> o == GetUpdateEditorAsWritten(boxed, nativeOk)
    ensures o.handed.Some? <==> nativeOk
  {
    if nativeOk then GetUpdateEditorAsWritten(boxed, nativeOk) else Outcome(None, NonNullEntries(boxed))
  }

  /** With a conflict callback and a failing native call, the boxed
    * callback is neither freed nor owned by anything. */
  lemma GetUpdateEditorLeaksOnFailure(conflict: Ptr)
    requires conflict != NULL
    ensures Leaks(EditorCandidates(NULL, conflict, NULL, NULL, NULL),
                  Releases(GetUpdateEditorAsWritten(EditorCandidates(NULL, conflict, NULL, NULL, NULL), false)))
  {
    assert Entry(conflict, DropConflict) in EditorCandidates(NULL, conflict, NULL, NULL, NULL);
  }

  /** With the error path freeing them, every boxed callback is released
    * exactly once whether the native call succeeds or fails. */
  lemma GetUpdateEditorReleasesOnce(boxed: seq<Entry>, nativeOk: bool)
    requires DistinctBatons(boxed)
    ensures ReleasedOnce(boxed, Releases(GetUpdateEditor(boxed, nativeOk)))
  {
    NonNullReleasedOnce(boxed);
    NonNullEntriesIdempotent(boxed);
    assert Releases(GetUpdateEditor(boxed, nativeOk)) == NonNullEntries(boxed);
  }
}
