/** Value types of the crate root (`src/lib.rs`): revision numbers and
  * revision specifiers, depths, native end-of-line styles, node, checksum
  * and path-change kinds, and their conversions to and from the native
  * Subversion encodings.
  *
  * Native enumerations are integers with the values of Subversion's public
  * C headers (`svn_types.h`, `svn_opt.h`, `svn_checksum.h`, `svn_fs.h`). A
  * native-to-Rust conversion that panics on an unknown value returns
  * `None` here. */
module SvnTypes {
  import opened Common
  import opened Text

  // ---------------------------------------------------------------------
  // Revision numbers

  /** `Revnum`, a wrapper around the signed 64-bit `svn_revnum_t`. */
  datatype Revnum = Revnum(value: int)

  const TWO_TO_32: int := 0x1_0000_0000
  const TWO_TO_64: int := 0x1_0000_0000_0000_0000

  /** `Revnum::from_raw`: negative raw values are not revisions. */
  function RevnumFromRaw(raw: int): (r: Option<Revnum>)
    ensures r.None? <==> raw < 0
    ensures r.Some? ==> r.value.value == raw
  {
    if raw < 0 then None else Some(Revnum(raw))
  }

  /** `Revnum::from(u64)`: an `as` cast, so values above `i64::MAX` wrap to
    * negative numbers. */
  function RevnumFromU64(v: nat): (r: Revnum)
    requires v <= U64_MAX
    ensures I64_MIN <= r.value <= I64_MAX
    ensures r.value == v <==> v <= I64_MAX
    ensures (r.value - v) % TWO_TO_64 == 0
  {
    if v <= I64_MAX then Revnum(v) else Revnum(v - TWO_TO_64)
  }

  /** `Revnum::as_u64` (also `From<Revnum> for u64`): the two's-complement
    * reading of the value. */
  function AsU64(r: Revnum): (v: nat)
    ensures v <= U64_MAX
    ensures (v - r.value) % TWO_TO_64 == 0
  {
    r.value % TWO_TO_64
  }

  /** `From<Revnum> for u32`: the low 32 bits. */
  function AsU32(r: Revnum): (v: nat)
    ensures v < TWO_TO_32
    ensures (v - r.value) % TWO_TO_32 == 0
  {
    r.value % TWO_TO_32
  }

  /** Every `u64` survives the trip through `Revnum`, and a non-negative
    * `i64` revision survives the trip through `u64`. */
  lemma RevnumU64RoundTrip(v: nat, r: Revnum)
    requires v <= U64_MAX && 0 <= r.value <= I64_MAX
    ensures AsU64(RevnumFromU64(v)) == v
    ensures RevnumFromU64(AsU64(r)) == r
  {
  }

  /** A `u32` survives the trip through `Revnum`. */
  lemma RevnumU32RoundTrip(v: nat)
    requires v < TWO_TO_32
    ensures AsU32(Revnum(v)) == v
  {
  }

  // ---------------------------------------------------------------------
  // Revision specifiers

  datatype Revision =
    | Unspecified
    | Number(number: Revnum)
    | Date(date: int)
    | Committed
    | Previous
    | Base
    | Working
    | Head

  /** `svn_opt_revision_t`: the kind and the value union, whose `number`
    * and `date` members are both 64-bit integers at the same place. */
  datatype OptRevision = OptRevision(kind: int, value: int)

  const OPT_UNSPECIFIED: int := 0
  const OPT_NUMBER: int := 1
  const OPT_DATE: int := 2
  const OPT_COMMITTED: int := 3
  const OPT_PREVIOUS: int := 4
  const OPT_BASE: int := 5
  const OPT_WORKING: int := 6
  const OPT_HEAD: int := 7

  /** `From<Revision> for svn_opt_revision_t`; keywords carry the default
    * (zero) value. */
  function ToOptRevision(r: Revision): (o: OptRevision)
    ensures OPT_UNSPECIFIED <= o.kind <= OPT_HEAD
    ensures o.kind != OPT_NUMBER && o.kind != OPT_DATE ==> o.value == 0
  {
    match r
    case Unspecified => OptRevision(OPT_UNSPECIFIED, 0)
    case Number(n) => OptRevision(OPT_NUMBER, n.value)
    case Date(d) => OptRevision(OPT_DATE, d)
    case Committed => OptRevision(OPT_COMMITTED, 0)
    case Previous => OptRevision(OPT_PREVIOUS, 0)
    case Base => OptRevision(OPT_BASE, 0)
    case Working => OptRevision(OPT_WORKING, 0)
    case Head => OptRevision(OPT_HEAD, 0)
  }

  /** `From<svn_opt_revision_t> for Revision`; an unknown kind reads as
    * unspecified. */
  function FromOptRevision(o: OptRevision): (r: Revision)
    ensures !(OPT_UNSPECIFIED <= o.kind <= OPT_HEAD) ==> r == Unspecified
  {
    if o.kind == OPT_NUMBER then Number(Revnum(o.value))
    else if o.kind == OPT_DATE then Date(o.value)
    else if o.kind == OPT_COMMITTED then Committed
    else if o.kind == OPT_PREVIOUS then Previous
    else if o.kind == OPT_BASE then Base
    else if o.kind == OPT_WORKING then Working
    else if o.kind == OPT_HEAD then Head
    else Unspecified
  }

  /** Every revision comes back from its native form unchanged, and every
    * native revision of a known kind with a zero value for keywords comes
    * back from its Rust form. */
  lemma OptRevisionRoundTrip(r: Revision, o: OptRevision)
    requires OPT_UNSPECIFIED <= o.kind <= OPT_HEAD
    requires o.kind != OPT_NUMBER && o.kind != OPT_DATE ==> o.value == 0
    ensures FromOptRevision(ToOptRevision(r)) == r
    ensures ToOptRevision(FromOptRevision(o)) == o
  {
  }

  const INVALID_INTEGER: string := "invalid integer"

  /** The keyword revisions of `Revision::from_str`. */
  function RevisionKeyword(s: string): Option<Revision> {
    if s == "unspecified" then Some(Unspecified)
    else if s == "committed" then Some(Committed)
    else if s == "previous" then Some(Previous)
    else if s == "base" then Some(Base)
    else if s == "working" then Some(Working)
    else if s == "head" then Some(Head)
    else None
  }

  /** `Revision::from_str` as written: a keyword, `number:N` or `date:N`
    * with `N` an `i64`, and anything else an error. A negative `N` after
    * `number:` becomes a negative revision number. */
  function ParseRevisionAsWritten(s: string): Result<Revision> {
    if RevisionKeyword(s).Some? then Success(RevisionKeyword(s).value)
    else if StartsWith(s, "number:") then
      match ParseI64(s[7..])
      case None => Failure(INVALID_INTEGER)
      case Some(n) => Success(Number(Revnum(n)))
    else if StartsWith(s, "date:") then
      match ParseI64(s[5..])
      case None => Failure(INVALID_INTEGER)
      case Some(d) => Success(Date(d))
    else Failure("Invalid revision: " + s)
  }

  /** `Revision::from_str` with the revision number checked the way
    * `Revnum::from_raw` checks it: a negative number is refused. */
  function ParseRevision(s: string): (r: Result<Revision>)
    ensures r.Success? && r.value.Number? ==> 0 <= r.value.number.value <= I64_MAX
    ensures r.Success? && r.value.Date? ==> I64_MIN <= r.value.date <= I64_MAX
    ensures r.Success? ==> ParseRevisionAsWritten(s) == r
  {
    match ParseRevisionAsWritten(s)
    case Success(Number(n)) =>
      if RevnumFromRaw(n.value).None? then Failure("Invalid revision: " + s) else Success(Number(n))
    case other => other
  }

  /** The text form `from_str` reads: the keyword, or `number:N` /
    * `date:N` in decimal. */
  function RevisionText(r: Revision): string {
    match r
    case Unspecified => "unspecified"
    case Number(n) => "number:" + IntToString(n.value)
    case Date(d) => "date:" + IntToString(d)
    case Committed => "committed"
    case Previous => "previous"
    case Base => "base"
    case Working => "working"
    case Head => "head"
  }

  /** No keyword starts with `number:` or `date:`. */
  lemma PrefixedNotKeyword(s: string)
    requires StartsWith(s, "number:") || StartsWith(s, "date:")
    ensures RevisionKeyword(s) == None
  {
    assert s[0] == 'n' || s[0] == 'd';
  }

  /** `number:N` parses back to revision `N` for every valid `N`. */
  lemma ParseNumberText(n: Revnum)
    requires 0 <= n.value <= I64_MAX
    ensures ParseRevision(RevisionText(Number(n))) == Success(Number(n))
  {
    var s := RevisionText(Number(n));
    assert s[..7] == "number:" && s[7..] == IntToString(n.value);
    PrefixedNotKeyword(s);
    ParseI64OfIntToString(n.value);
  }

  /** `date:N` parses back to date `N` for every `i64` `N`. */
  lemma ParseDateText(d: int)
    requires I64_MIN <= d <= I64_MAX
    ensures ParseRevision(RevisionText(Date(d))) == Success(Date(d))
  {
    var s := RevisionText(Date(d));
    assert s[..5] == "date:" && s[5..] == IntToString(d);
    assert !StartsWith(s, "number:") by { assert s[0] == 'd'; }
    PrefixedNotKeyword(s);
    ParseI64OfIntToString(d);
  }

  /** Parsing the text form of a revision gives it back, provided its
    * number is a valid revision and its values fit in an `i64`. */
  lemma ParseRevisionText(r: Revision)
    requires r.Number? ==> 0 <= r.number.value <= I64_MAX
    requires r.Date? ==> I64_MIN <= r.date <= I64_MAX
    ensures ParseRevision(RevisionText(r)) == Success(r)
  {
    match r
    case Number(n) => ParseNumberText(n);
    case Date(d) => ParseDateText(d);
    case _ =>
  }

  /** The source accepts `number:-1` and yields revision number -1, which
    * `Revnum::from_raw` refuses; the checked parser rejects it. */
  lemma ParseRevisionNegativeNumber()
    ensures ParseRevisionAsWritten("number:-1") == Success(Number(Revnum(-1)))
    ensures RevnumFromRaw(-1) == None
    ensures ParseRevision("number:-1") == Failure("Invalid revision: number:-1")
  {
    var s := "number:-1";
    assert s[..7] == "number:" && s[7..] == "-1";
    PrefixedNotKeyword(s);
    assert IntToString(-1) == "-1";
    ParseI64OfIntToString(-1);
  }

  /** Every outcome of the checked parser: a keyword gives its revision;
    * text that is neither a keyword nor starts with `number:` or `date:` is
    * refused as an invalid revision; after either prefix a malformed
    * integer is refused, and after `number:` so is a negative one.
    * Success holds exactly for the three accepted forms. */
  lemma ParseRevisionOutcomes(s: string)
    ensures RevisionKeyword(s).Some? ==> ParseRevision(s) == Success(RevisionKeyword(s).value)
    ensures RevisionKeyword(s).None? && !StartsWith(s, "number:") && !StartsWith(s, "date:") ==>
      ParseRevision(s) == Failure("Invalid revision: " + s)
    ensures StartsWith(s, "number:") && ParseI64(s[7..]).None? ==> ParseRevision(s) == Failure(INVALID_INTEGER)
    ensures StartsWith(s, "number:") && ParseI64(s[7..]).Some? && ParseI64(s[7..]).value < 0 ==>
      ParseRevision(s) == Failure("Invalid revision: " + s)
    ensures StartsWith(s, "date:") && ParseI64(s[5..]).None? ==> ParseRevision(s) == Failure(INVALID_INTEGER)
    ensures ParseRevision(s).Success? <==>
      RevisionKeyword(s).Some?
      || (StartsWith(s, "number:") && ParseI64(s[7..]).Some? && ParseI64(s[7..]).value >= 0)
      || (StartsWith(s, "date:") && ParseI64(s[5..]).Some?)
  {
    if StartsWith(s, "number:") || StartsWith(s, "date:") {
      PrefixedNotKeyword(s);
    }
    if StartsWith(s, "date:") {
      assert !StartsWith(s, "number:") by { assert s[0] == 'd'; }
    }
  }

  // ---------------------------------------------------------------------
  // Depth

  datatype Depth = Unknown | Exclude | Empty | Files | Immediates | Infinity

  /** `From<Depth> for svn_depth_t`. */
  function DepthToRaw(d: Depth): int {
    match d
    case Unknown => -2
    case Exclude => -1
    case Empty => 0
    case Files => 1
    case Immediates => 2
    case Infinity => 3
  }

  /** `From<svn_depth_t> for Depth`; `None` where it panics. */
  function DepthFromRaw(n: int): (d: Option<Depth>)
    ensures d.None? <==> !(-2 <= n <= 3)
  {
    if n == -2 then Some(Unknown)
    else if n == -1 then Some(Exclude)
    else if n == 0 then Some(Empty)
    else if n == 1 then Some(Files)
    else if n == 2 then Some(Immediates)
    else if n == 3 then Some(Infinity)
    else None
  }

  /** The two depth conversions are inverse. */
  lemma DepthRawRoundTrip(d: Depth, n: int)
    ensures DepthFromRaw(DepthToRaw(d)) == Some(d)
    ensures DepthFromRaw(n).Some? ==> DepthToRaw(DepthFromRaw(n).value) == n
  {
  }

  /** The name `Depth::from_str` accepts for each depth. */
  function DepthName(d: Depth): string {
    match d
    case Unknown => "unknown"
    case Exclude => "exclude"
    case Empty => "empty"
    case Files => "files"
    case Immediates => "immediates"
    case Infinity => "infinity"
  }

  /** `Depth::from_str`. */
  function ParseDepth(s: string): (r: Result<Depth>)
    ensures r.Failure? ==> r.error == "Invalid depth: " + s
  {
    if s == "unknown" then Success(Unknown)
    else if s == "exclude" then Success(Exclude)
    else if s == "empty" then Success(Empty)
    else if s == "files" then Success(Files)
    else if s == "immediates" then Success(Immediates)
    else if s == "infinity" then Success(Infinity)
    else Failure("Invalid depth: " + s)
  }

  /** `from_str` accepts exactly the six depth names, each for its own
    * depth. */
  lemma ParseDepthExactly(s: string, d: Depth)
    ensures ParseDepth(s) == Success(d) <==> s == DepthName(d)
  {
  }

  // ---------------------------------------------------------------------
  // End-of-line styles

  datatype NativeEol = Standard | Lf | Crlf | Cr

  const UNKNOWN_EOL: string := "Unknown eol marker"

  /** `From<NativeEOL> for Option<&str>`. */
  function EolMarker(e: NativeEol): Option<string> {
    match e
    case Standard => None
    case Lf => Some("LF")
    case Crlf => Some("CRLF")
    case Cr => Some("CR")
  }

  /** `TryFrom<Option<&str>> for NativeEOL`: no marker is the standard
    * style and an unknown marker is an error. */
  function EolFromMarker(marker: Option<string>): (r: Result<NativeEol>)
    ensures r.Failure? ==> r.error == UNKNOWN_EOL
  {
    match marker
    case None => Success(Standard)
    case Some(m) =>
      if m == "LF" then Success(Lf)
      else if m == "CRLF" then Success(Crlf)
      else if m == "CR" then Success(Cr)
      else Failure(UNKNOWN_EOL)
  }

  /** A marker is accepted exactly when it is the marker of the style it
    * yields. */
  lemma EolMarkerRoundTrip(e: NativeEol, marker: Option<string>)
    ensures EolFromMarker(EolMarker(e)) == Success(e)
    ensures EolFromMarker(marker) == Success(e) <==> marker == EolMarker(e)
  {
  }

  // ---------------------------------------------------------------------
  // Node, checksum and path-change kinds

  datatype NodeKind = NoNode | File | Dir | UnknownNode | Symlink

  /** `From<NodeKind> for svn_node_kind_t`. */
  function NodeKindToRaw(k: NodeKind): int {
    match k
    case NoNode => 0
    case File => 1
    case Dir => 2
    case UnknownNode => 3
    case Symlink => 4
  }

  /** `From<svn_node_kind_t> for NodeKind`; `None` where it panics. */
  function NodeKindFromRaw(n: int): (k: Option<NodeKind>)
    ensures k.None? <==> !(0 <= n <= 4)
  {
    if n == 0 then Some(NoNode)
    else if n == 1 then Some(File)
    else if n == 2 then Some(Dir)
    else if n == 3 then Some(UnknownNode)
    else if n == 4 then Some(Symlink)
    else None
  }

  /** The two node-kind conversions are inverse. */
  lemma NodeKindRoundTrip(k: NodeKind, n: int)
    ensures NodeKindFromRaw(NodeKindToRaw(k)) == Some(k)
    ensures NodeKindFromRaw(n).Some? ==> NodeKindToRaw(NodeKindFromRaw(n).value) == n
  {
  }

  datatype ChecksumKind = Md5 | Sha1 | Fnv1a32 | Fnv1a32x4

  /** `From<ChecksumKind> for svn_checksum_kind_t`. */
  function ChecksumKindToRaw(k: ChecksumKind): int {
    match k
    case Md5 => 0
    case Sha1 => 1
    case Fnv1a32 => 2
    case Fnv1a32x4 => 3
  }

  /** `From<svn_checksum_kind_t> for ChecksumKind`; `None` where it panics. */
  function ChecksumKindFromRaw(n: int): (k: Option<ChecksumKind>)
    ensures k.None? <==> !(0 <= n <= 3)
  {
    if n == 0 then Some(Md5)
    else if n == 1 then Some(Sha1)
    else if n == 2 then Some(Fnv1a32)
    else if n == 3 then Some(Fnv1a32x4)
    else None
  }

  /** The two checksum-kind conversions are inverse. */
  lemma ChecksumKindRoundTrip(k: ChecksumKind, n: int)
    ensures ChecksumKindFromRaw(ChecksumKindToRaw(k)) == Some(k)
    ensures ChecksumKindFromRaw(n).Some? ==> ChecksumKindToRaw(ChecksumKindFromRaw(n).value) == n
  {
  }

  /** `Checksum::has_known_size`: the digest length in bytes of each kind. */
  predicate HasKnownSize(k: ChecksumKind, size: nat) {
    match k
    case Md5 => size == 16
    case Sha1 => size == 20
    case Fnv1a32 => size == 4
    case Fnv1a32x4 => size == 16
  }

  /** Each kind has exactly one known size, and MD5 and the four-way FNV
    * share theirs. */
  lemma KnownSizeUnique(k: ChecksumKind, m: nat, n: nat)
    requires HasKnownSize(k, m) && HasKnownSize(k, n)
    ensures m == n
    ensures HasKnownSize(Md5, m) <==> HasKnownSize(Fnv1a32x4, m)
  {
  }

  datatype FsPathChangeKind = Modify | Add | Delete | Replace

  /** `From<svn_fs_path_change_kind_t> for FsPathChangeKind`: modify, add,
    * delete and replace are 0 to 3, and any other value (such as reset, 4)
    * reads as a modification. */
  function FsPathChangeKindFromRaw(n: int): (k: FsPathChangeKind)
    ensures k == Add <==> n == 1
    ensures k == Delete <==> n == 2
    ensures k == Replace <==> n == 3
    ensures k == Modify <==> !(1 <= n <= 3)
  {
    if n == 0 then Modify
    else if n == 1 then Add
    else if n == 2 then Delete
    else if n == 3 then Replace
    else Modify
  }
}
