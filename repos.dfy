/** The self-contained parts of `src/repos.rs`: authorization and UUID
  * conversions, the revision access level, the dump/load/verify option
  * builders, the early return of `check_revision_access`, and the
  * callback-baton bookkeeping of `begin_report` and `Report`.
  *
  * Native values follow Subversion's `svn_repos.h`: `svn_authz_read` is
  * bit 1, `svn_authz_write` bit 2 and `svn_authz_recursive` bit 4;
  * `svn_repos_load_uuid` is default 0, ignore 1, force 2; the revision
  * access level is none 0, partial 1, full 2. */
module Repos {
  import opened Common
  import opened SvnTypes
  import opened Batons

  // ---------------------------------------------------------------------
  // Authorization access

  datatype AuthzAccess = NoAccess | Read | Write | ReadWrite

  const AUTHZ_NONE: bv32 := 0
  const AUTHZ_READ: bv32 := 1
  const AUTHZ_WRITE: bv32 := 2
  const AUTHZ_RECURSIVE: bv32 := 4

  /** `AuthzAccess::from_raw`: both bits give read-write, otherwise the
    * write bit gives write, otherwise the read bit gives read. */
  function AuthzAccessFromRaw(access: bv32): (a: AuthzAccess)
    ensures a == ReadWrite <==> access & AUTHZ_READ != 0 && access & AUTHZ_WRITE != 0
    ensures a == Write <==> access & AUTHZ_READ == 0 && access & AUTHZ_WRITE != 0
    ensures a == Read <==> access & AUTHZ_READ != 0 && access & AUTHZ_WRITE == 0
    ensures a == NoAccess <==> access & (AUTHZ_READ | AUTHZ_WRITE) == 0
  {
    if access & (AUTHZ_READ | AUTHZ_WRITE) == AUTHZ_READ | AUTHZ_WRITE then ReadWrite
    else if access & AUTHZ_WRITE != 0 then Write
    else if access & AUTHZ_READ != 0 then Read
    else NoAccess
  }

  /** `From<AuthzAccess> for svn_repos_authz_access_t`. */
  function AuthzAccessToRaw(a: AuthzAccess): bv32 {
    match a
    case NoAccess => AUTHZ_NONE
    case Read => AUTHZ_READ
    case Write => AUTHZ_WRITE
    case ReadWrite => AUTHZ_READ | AUTHZ_WRITE
  }

  /** Every access level survives the trip through its native form, and
    * bits other than read and write (such as the recursive flag) do not
    * change what a native value means. */
  lemma AuthzAccessRoundTrip(a: AuthzAccess, access: bv32)
    ensures AuthzAccessFromRaw(AuthzAccessToRaw(a)) == a
    ensures AuthzAccessFromRaw(access | AUTHZ_RECURSIVE) == AuthzAccessFromRaw(access)
  {
  }

  // ---------------------------------------------------------------------
  // UUID handling on load

  datatype LoadUuid = UuidDefault | UuidIgnore | UuidForce

  /** `From<LoadUUID> for svn_repos_load_uuid`. */
  function LoadUuidToRaw(u: LoadUuid): int {
    match u
    case UuidDefault => 0
    case UuidIgnore => 1
    case UuidForce => 2
  }

  /** `From<svn_repos_load_uuid> for LoadUUID`; `None` where it reaches
    * `unreachable!`. */
  function LoadUuidFromRaw(n: int): (u: Option<LoadUuid>)
    ensures u.None? <==> !(0 <= n <= 2)
  {
    if n == 0 then Some(UuidDefault)
    else if n == 1 then Some(UuidIgnore)
    else if n == 2 then Some(UuidForce)
    else None
  }

  /** The two UUID conversions are inverse. */
  lemma LoadUuidRoundTrip(u: LoadUuid, n: int)
    ensures LoadUuidFromRaw(LoadUuidToRaw(u)) == Some(u)
    ensures LoadUuidFromRaw(n).Some? ==> LoadUuidToRaw(LoadUuidFromRaw(n).value) == n
  {
  }

  // ---------------------------------------------------------------------
  // Revision access level

  datatype RevisionAccessLevel = LevelNone | Partial | Full

  /** `From<svn_repos_revision_access_level_t> for RevisionAccessLevel`:
    * none and partial are recognised and every other value is full. */
  function RevisionAccessLevelFromRaw(level: int): (l: RevisionAccessLevel)
    ensures l == LevelNone <==> level == 0
    ensures l == Partial <==> level == 1
    ensures l == Full <==> level != 0 && level != 1
  {
    if level == 0 then LevelNone else if level == 1 then Partial else Full
  }

  /** `Repos::check_revision_access`: without an authz the answer is full
    * access and the native query (given as `native`, its level or its
    * error) is never made. */
  function CheckRevisionAccess(hasAuthz: bool, native: Result<int>): (r: Result<RevisionAccessLevel>)
    ensures !hasAuthz ==> r == Success(Full)
    ensures hasAuthz ==> (r.Success? <==> native.Success?)
    ensures hasAuthz && native.Success? ==> r == Success(RevisionAccessLevelFromRaw(native.value))
    ensures hasAuthz && native.Failure? ==> r == Failure(native.error)
  {
    if !hasAuthz then Success(Full)
    else match native
      case Success(level) => Success(RevisionAccessLevelFromRaw(level))
      case Failure(e) => Failure(e)
  }

  /** Without an authz the native answer makes no difference, even a
    * failing one. */
  lemma NoAuthzIgnoresRepository(n1: Result<int>, n2: Result<int>)
    ensures CheckRevisionAccess(false, n1) == CheckRevisionAccess(false, n2)
  {
  }

  // ---------------------------------------------------------------------
  // Option builders (callbacks left out)

  /** `DumpOptions`; `new()` is the all-default value. */
  datatype DumpOptions = DumpOptions(
    startRev: Option<Revnum>,
    endRev: Option<Revnum>,
    incremental: bool,
    useDeltas: bool,
    includeRevprops: bool,
    includeChanges: bool)
  {
    static function New(): DumpOptions {
      DumpOptions(None, None, false, false, false, false)
    }
    function WithStartRev(rev: Revnum): DumpOptions { this.(startRev := Some(rev)) }
    function WithEndRev(rev: Revnum): DumpOptions { this.(endRev := Some(rev)) }
    function WithIncremental(b: bool): DumpOptions { this.(incremental := b) }
    function WithUseDeltas(b: bool): DumpOptions { this.(useDeltas := b) }
    function WithIncludeRevprops(b: bool): DumpOptions { this.(includeRevprops := b) }
    function WithIncludeChanges(b: bool): DumpOptions { this.(includeChanges := b) }
  }

  /** Each dump builder sets its own field and changes nothing else, and
    * builders of different fields commute. */
  lemma DumpBuildersSetOneField(o: DumpOptions, rev: Revnum, b: bool)
    ensures o.WithStartRev(rev).startRev == Some(rev) && o.WithStartRev(rev).(startRev := o.startRev) == o
    ensures o.WithEndRev(rev).endRev == Some(rev) && o.WithEndRev(rev).(endRev := o.endRev) == o
    ensures o.WithIncremental(b).incremental == b && o.WithIncremental(b).(incremental := o.incremental) == o
    ensures o.WithUseDeltas(b).useDeltas == b && o.WithUseDeltas(b).(useDeltas := o.useDeltas) == o
    ensures o.WithIncludeRevprops(b).includeRevprops == b
    ensures o.WithIncludeRevprops(b).(includeRevprops := o.includeRevprops) == o
    ensures o.WithIncludeChanges(b).includeChanges == b
    ensures o.WithIncludeChanges(b).(includeChanges := o.includeChanges) == o
    ensures o.WithStartRev(rev).WithEndRev(rev) == o.WithEndRev(rev).WithStartRev(rev)
  {
  }

  /** `LoadOptions`; `new()` is the all-default value. */
  datatype LoadOptions = LoadOptions(
    startRev: Option<Revnum>,
    endRev: Option<Revnum>,
    uuidAction: LoadUuid,
    parentDir: Option<string>,
    usePreCommitHook: bool,
    usePostCommitHook: bool,
    validateProps: bool,
    ignoreDates: bool,
    normalizeProps: bool)
  {
    static function New(): LoadOptions {
      LoadOptions(None, None, UuidDefault, None, false, false, false, false, false)
    }
    function WithStartRev(rev: Revnum): LoadOptions { this.(startRev := Some(rev)) }
    function WithEndRev(rev: Revnum): LoadOptions { this.(endRev := Some(rev)) }
    function WithUuidAction(action: LoadUuid): LoadOptions { this.(uuidAction := action) }
    function WithParentDir(dir: string): LoadOptions { this.(parentDir := Some(dir)) }
    function WithUsePreCommitHook(b: bool): LoadOptions { this.(usePreCommitHook := b) }
    function WithUsePostCommitHook(b: bool): LoadOptions { this.(usePostCommitHook := b) }
    function WithValidateProps(b: bool): LoadOptions { this.(validateProps := b) }
    function WithIgnoreDates(b: bool): LoadOptions { this.(ignoreDates := b) }
    function WithNormalizeProps(b: bool): LoadOptions { this.(normalizeProps := b) }
  }

  /** Each load builder sets its own field and changes nothing else. */
  lemma LoadBuildersSetOneField(o: LoadOptions, rev: Revnum, u: LoadUuid, dir: string, b: bool)
    ensures o.WithStartRev(rev).startRev == Some(rev) && o.WithStartRev(rev).(startRev := o.startRev) == o
    ensures o.WithEndRev(rev).endRev == Some(rev) && o.WithEndRev(rev).(endRev := o.endRev) == o
    ensures o.WithUuidAction(u).uuidAction == u && o.WithUuidAction(u).(uuidAction := o.uuidAction) == o
    ensures o.WithParentDir(dir).parentDir == Some(dir) && o.WithParentDir(dir).(parentDir := o.parentDir) == o
    ensures o.WithUsePreCommitHook(b).usePreCommitHook == b
    ensures o.WithUsePreCommitHook(b).(usePreCommitHook := o.usePreCommitHook) == o
    ensures o.WithUsePostCommitHook(b).usePostCommitHook == b
    ensures o.WithUsePostCommitHook(b).(usePostCommitHook := o.usePostCommitHook) == o
    ensures o.WithValidateProps(b).validateProps == b
    ensures o.WithValidateProps(b).(validateProps := o.validateProps) == o
    ensures o.WithIgnoreDates(b).ignoreDates == b && o.WithIgnoreDates(b).(ignoreDates := o.ignoreDates) == o
    ensures o.WithNormalizeProps(b).normalizeProps == b
    ensures o.WithNormalizeProps(b).(normalizeProps := o.normalizeProps) == o
  {
  }

  /** `VerifyOptions`; both revisions default to revision 0. */
  datatype VerifyOptions = VerifyOptions(
    startRev: Revnum,
    endRev: Revnum,
    checkNormalization: bool,
    metadataOnly: bool)
  {
    static function New(): VerifyOptions {
      VerifyOptions(Revnum(0), Revnum(0), false, false)
    }
    function WithStartRev(rev: Revnum): VerifyOptions { this.(startRev := rev) }
    function WithEndRev(rev: Revnum): VerifyOptions { this.(endRev := rev) }
    function WithCheckNormalization(b: bool): VerifyOptions { this.(checkNormalization := b) }
    function WithMetadataOnly(b: bool): VerifyOptions { this.(metadataOnly := b) }
  }

  /** Each verify builder sets its own field and changes nothing else. */
  lemma VerifyBuildersSetOneField(o: VerifyOptions, rev: Revnum, b: bool)
    ensures o.WithStartRev(rev).startRev == rev && o.WithStartRev(rev).(startRev := o.startRev) == o
    ensures o.WithEndRev(rev).endRev == rev && o.WithEndRev(rev).(endRev := o.endRev) == o
    ensures o.WithCheckNormalization(b).checkNormalization == b
    ensures o.WithCheckNormalization(b).(checkNormalization := o.checkNormalization) == o
    ensures o.WithMetadataOnly(b).metadataOnly == b
    ensures o.WithMetadataOnly(b).(metadataOnly := o.metadataOnly) == o
  {
  }

  // ---------------------------------------------------------------------
  // Report and its callback baton

  /** A repository report handle and the callback batons it owns. */
  class Report {
    var callbackBatons: seq<Entry>

    constructor (batons: seq<Entry>)
      ensures callbackBatons == batons
    {
      callbackBatons := batons;
    }

    /** `Drop for Report`: call the dropper of every non-null baton, in
      * order, then empty the list; `calls` records the dropper calls. */
    method Drop() returns (calls: seq<Entry>)
      modifies this
      ensures calls == NonNullEntries(old(callbackBatons))
      ensures callbackBatons == []
    {
      calls := [];
      for i := 0 to |callbackBatons|
        invariant calls + NonNullEntries(callbackBatons[i..]) == NonNullEntries(callbackBatons)
      {
        assert callbackBatons[i..][1..] == callbackBatons[i + 1..];
        if callbackBatons[i].baton != NULL {
          calls := calls + [callbackBatons[i]];
        }
      }
      callbackBatons := [];
    }
  }

  /** The authz baton `begin_report` boxes when a callback is given (null
    * otherwise). */
  function ReportCandidates(authzBaton: Ptr): seq<Entry> {
    [Entry(authzBaton, DropAuthzRead)]
  }

  /** `Repos::begin_report` as written: the authz callback is boxed before
    * the native call; when that call fails the function returns the error
    * and the box is never freed. */
  function BeginReportAsWritten(authzBaton: Ptr, nativeOk: bool): Outcome {
    if nativeOk then Outcome(Some(NonNullEntries(ReportCandidates(authzBaton))), [])
    else Outcome(None, [])
  }

  /** `begin_report` freeing the boxed callback on the error path. */
  function BeginReport(authzBaton: Ptr, nativeOk: bool): (o: Outcome)
    ensures nativeOk ==> o == BeginReportAsWritten(authzBaton, nativeOk)
    ensures o.handed.Some? <==> nativeOk
  {
    if nativeOk then BeginReportAsWritten(authzBaton, nativeOk)
    else Outcome(None, NonNullEntries(ReportCandidates(authzBaton)))
  }

  /** With an authz callback and a failing native call, the boxed callback
    * is neither freed nor owned by anything. */
  lemma BeginReportLeaksOnFailure(authzBaton: Ptr)
    requires authzBaton != NULL
    ensures Leaks(ReportCandidates(authzBaton), Releases(BeginReportAsWritten(authzBaton, false)))
  {
    assert Entry(authzBaton, DropAuthzRead) in ReportCandidates(authzBaton);
  }

  /** With the error path freeing it, the callback is released exactly
    * once whether the native call succeeds or fails. */
  lemma BeginReportReleasesOnce(authzBaton: Ptr, nativeOk: bool)
    ensures ReleasedOnce(ReportCandidates(authzBaton), Releases(BeginReport(authzBaton, nativeOk)))
  {
    var boxed := ReportCandidates(authzBaton);
    NonNullReleasedOnce(boxed);
    NonNullEntriesIdempotent(boxed);
    assert Releases(BeginReport(authzBaton, nativeOk)) == NonNullEntries(boxed);
  }
}
