/** Certificate logic (`src/x509.rs`): validity windows, hostname matching
  * with single-label wildcards, the order of the validation checks, the
  * placeholder parsers' input guards, a fingerprint-keyed certificate store
  * and distinguished-name field extraction.
  *
  * Instants are whole seconds relative to the Unix epoch and the current
  * time is a parameter. */
module X509 {
  import opened Common
  import opened Text

  datatype KeyUsage =
    | DigitalSignature | NonRepudiation | KeyEncipherment | DataEncipherment
    | KeyAgreement | KeyCertSign | CrlSign | EncipherOnly | DecipherOnly

  datatype ExtendedKeyUsage =
    | ServerAuth | ClientAuth | CodeSigning | EmailProtection | TimeStamping | OcspSigning
    | Other(oid: string)

  datatype CertificateInfo = CertificateInfo(
    subject: string,
    issuer: string,
    serialNumber: string,
    validFrom: int,
    validUntil: int,
    fingerprint: string,
    signatureAlgorithm: string,
    version: nat,
    subjectAltNames: seq<string>,
    keyUsage: seq<KeyUsage>,
    extendedKeyUsage: seq<ExtendedKeyUsage>)
  {
    /** `is_valid_now` at instant `now`. */
    predicate IsValidAt(now: int) {
      validFrom <= now <= validUntil
    }

    /** `is_expired` at instant `now`. */
    predicate IsExpiredAt(now: int) {
      now > validUntil
    }

    /** `is_not_yet_valid` at instant `now`. */
    predicate IsNotYetValidAt(now: int) {
      now < validFrom
    }

    /** `time_until_expiry`: the seconds left, or an error once expired. */
    function TimeUntilExpiry(now: int): (r: Result<nat>)
      ensures r.Success? <==> !IsExpiredAt(now)
      ensures r.Success? ==> now + r.value == validUntil
      ensures r.Failure? ==> r.error == "Certificate is already expired"
    {
      if validUntil >= now then Success(validUntil - now) else Failure("Certificate is already expired")
    }

    /** `age`: the seconds since the start of validity, or an error before it. */
    function Age(now: int): (r: Result<nat>)
      ensures r.Success? <==> !IsNotYetValidAt(now)
      ensures r.Success? ==> validFrom + r.value == now
      ensures r.Failure? ==> r.error == "Certificate is not yet valid"
    {
      if now >= validFrom then Success(now - validFrom) else Failure("Certificate is not yet valid")
    }

    /** `is_valid_for_hostname`: the subject contains `CN=hostname`, or
      * some subject alternative name matches. */
    predicate ValidForHostname(hostname: string) {
      Contains(subject, "CN=" + hostname)
      || exists i :: 0 <= i < |subjectAltNames| && SanMatches(subjectAltNames[i], hostname)
    }

    /** `has_key_usage`. */
    predicate HasKeyUsage(usage: KeyUsage) {
      usage in keyUsage
    }

    /** `has_extended_key_usage`. */
    predicate HasExtendedKeyUsage(usage: ExtendedKeyUsage) {
      usage in extendedKeyUsage
    }
  }

  /** A certificate is valid exactly when it is neither expired nor not yet
    * valid. */
  lemma ValidIffNeitherExpiredNorEarly(c: CertificateInfo, now: int)
    ensures c.IsValidAt(now) <==> !c.IsExpiredAt(now) && !c.IsNotYetValidAt(now)
  {
  }

  /** Once expired a certificate stays expired, and before its window opens
    * it was not yet valid at every earlier instant; a certificate whose
    * window is not empty is never both. */
  lemma ValidityOverTime(c: CertificateInfo, t: int, later: int)
    requires t <= later
    ensures c.IsExpiredAt(t) ==> c.IsExpiredAt(later)
    ensures c.IsNotYetValidAt(later) ==> c.IsNotYetValidAt(t)
    ensures c.validFrom <= c.validUntil ==> !(c.IsExpiredAt(t) && c.IsNotYetValidAt(t))
  {
  }

  /** Whether a certificate carries a usage depends only on which usages it
    * lists, not on their order or repetition. */
  lemma UsagesIgnoreOrder(c: CertificateInfo, ku: seq<KeyUsage>, eku: seq<ExtendedKeyUsage>)
    requires multiset(ku) == multiset(c.keyUsage) && multiset(eku) == multiset(c.extendedKeyUsage)
    ensures forall u :: c.(keyUsage := ku).HasKeyUsage(u) <==> c.HasKeyUsage(u)
    ensures forall u :: c.(extendedKeyUsage := eku).HasExtendedKeyUsage(u) <==> c.HasExtendedKeyUsage(u)
  {
    forall u
      ensures c.(keyUsage := ku).HasKeyUsage(u) <==> c.HasKeyUsage(u)
    {
      assert u in ku <==> u in multiset(ku);
      assert u in c.keyUsage <==> u in multiset(c.keyUsage);
    }
    forall u
      ensures c.(extendedKeyUsage := eku).HasExtendedKeyUsage(u) <==> c.HasExtendedKeyUsage(u)
    {
      assert u in eku <==> u in multiset(eku);
      assert u in c.extendedKeyUsage <==> u in multiset(c.extendedKeyUsage);
    }
  }

  // ---------------------------------------------------------------------
  // Hostnames

  /** The wildcard test for one subject alternative name, as written: the
    * name starts with `*.`, the hostname ends with the rest of it and is
    * longer, the remaining prefix ends in `.`, and without that dot it is
    * a non-empty label with no `.`. */
  predicate WildcardMatches(san: string, hostname: string) {
    StartsWith(san, "*.")
    && var domain := san[2..];
    EndsWith(hostname, domain) && |hostname| > |domain|
    && var prefixWithDot := hostname[..|hostname| - |domain|];
    EndsWith(prefixWithDot, ".")
    && var prefix := prefixWithDot[..|prefixWithDot| - 1];
    '.' !in prefix && prefix != []
  }

  /** One subject alternative name accepts the hostname. */
  predicate SanMatches(san: string, hostname: string) {
    san == hostname || WildcardMatches(san, hostname)
  }

  /** `*.d` accepts every hostname made of one non-empty label without dots,
    * a dot, and `d`. */
  lemma WildcardAcceptsOneLabel(first: string, domain: string)
    requires first != [] && '.' !in first
    ensures WildcardMatches("*." + domain, first + "." + domain)
  {
    var san, host := "*." + domain, first + "." + domain;
    assert san[..2] == "*." && san[2..] == domain;
    assert host[|host| - |domain|..] == domain;
    var prefixWithDot := host[..|host| - |domain|];
    assert prefixWithDot == first + ".";
    assert prefixWithDot[|prefixWithDot| - 1..] == ".";
    assert prefixWithDot[..|prefixWithDot| - 1] == first;
  }

  /** Every hostname a wildcard accepts is one such label, a dot, and the
    * domain after `*.`. */
  lemma WildcardMatchesOneLabel(san: string, hostname: string) returns (first: string)
    requires WildcardMatches(san, hostname)
    ensures first != [] && '.' !in first
    ensures hostname == first + "." + san[2..]
  {
    var domain := san[2..];
    var prefixWithDot := hostname[..|hostname| - |domain|];
    first := prefixWithDot[..|prefixWithDot| - 1];
    assert prefixWithDot == first + [prefixWithDot[|prefixWithDot| - 1]];
    assert prefixWithDot[|prefixWithDot| - 1..] == ".";
    assert hostname == prefixWithDot + hostname[|hostname| - |domain|..];
  }

  /** Under `*.d`, a hostname `x.d` is accepted exactly when `x` is one
    * non-empty label without dots. */
  lemma WildcardOneLabelIff(x: string, domain: string)
    ensures WildcardMatches("*." + domain, x + "." + domain) <==> x != [] && '.' !in x
  {
    var san, host := "*." + domain, x + "." + domain;
    if x != [] && '.' !in x {
      WildcardAcceptsOneLabel(x, domain);
    } else if WildcardMatches(san, host) {
      var first := WildcardMatchesOneLabel(san, host);
    }
  }

  /** `sub.example.com` matches `*.example.com`, `sub.sub.example.com` does not. */
  lemma WildcardSingleLevel()
    ensures WildcardMatches("*.example.com", "sub.example.com")
    ensures !WildcardMatches("*.example.com", "sub.sub.example.com")
  {
    WildcardAcceptsSub();
    WildcardRejectsSubSub();
  }

  /** `sub.example.com` matches `*.example.com`. */
  lemma WildcardAcceptsSub()
    ensures WildcardMatches("*.example.com", "sub.example.com")
  {
    WildcardOneLabelIff("sub", "example.com");
    assert "*." + "example.com" == "*.example.com";
    assert "sub" + "." + "example.com" == "sub.example.com";
  }

  /** `sub.sub.example.com` does not match `*.example.com`. */
  lemma WildcardRejectsSubSub()
    ensures !WildcardMatches("*.example.com", "sub.sub.example.com")
  {
    WildcardOneLabelIff("sub.sub", "example.com");
    assert "*." + "example.com" == "*.example.com";
    assert "sub.sub" + "." + "example.com" == "sub.sub.example.com";
    assert "sub.sub"[3] == '.';
  }

  /** The common-name test is a substring test: a subject naming a longer
    * host also accepts every host name that prefixes it. */
  lemma CommonNameIsSubstring(hostname: string, suffix: string, rest: string)
    ensures CertificateInfo("CN=" + hostname + suffix + rest, "", "", 0, 0, "", "", 0, [], [], [])
              .ValidForHostname(hostname)
  {
    var s := "CN=" + hostname + suffix + rest;
    assert s == [] + ("CN=" + hostname) + (suffix + rest);
    ContainsConcat([], "CN=" + hostname, suffix + rest);
  }

  /** `is_valid_for_hostname`: the common-name test, then the subject
    * alternative names in order, returning as soon as one matches. */
  method IsValidForHostname(cert: CertificateInfo, hostname: string) returns (valid: bool)
    ensures valid == cert.ValidForHostname(hostname)
  {
    if Contains(cert.subject, "CN=" + hostname) {
      return true;
    }
    var sans := cert.subjectAltNames;
    for i := 0 to |sans|
      invariant forall j :: 0 <= j < i ==> !SanMatches(sans[j], hostname)
    {
      var san := sans[i];
      if san == hostname {
        return true;
      }
      if StartsWith(san, "*.") {
        var domain := san[2..];
        if EndsWith(hostname, domain) && |hostname| > |domain| {
          var prefixWithDot := hostname[..|hostname| - |domain|];
          if EndsWith(prefixWithDot, ".") {
            var prefix := prefixWithDot[..|prefixWithDot| - 1];
            if '.' !in prefix && prefix != [] {
              return true;
            }
          }
        }
      }
    }
    return false;
  }

  // ---------------------------------------------------------------------
  // Validation

  datatype ValidationResult =
    | Valid | Expired | NotYetValid | InvalidSignature | UntrustedIssuer | Revoked
    | InvalidHostname | OtherFailure(reason: string)

  class ValidationContext {
    var trustedCas: seq<CertificateInfo>
    var crls: seq<string>
    var checkRevocation: bool
    var validateHostname: bool
    var hostname: Option<string>
    var maxChainDepth: nat
    var allowSelfSigned: bool

    /** `ValidationContext::new` (also `Default`): hostname checking on, no
      * hostname, chain depth 10. */
    constructor New()
      ensures trustedCas == [] && crls == [] && !checkRevocation && validateHostname
      ensures hostname == None && maxChainDepth == 10 && !allowSelfSigned
    {
      trustedCas := [];
      crls := [];
      checkRevocation := false;
      validateHostname := true;
      hostname := None;
      maxChainDepth := 10;
      allowSelfSigned := false;
    }

    /** `add_trusted_ca`. */
    method AddTrustedCa(ca: CertificateInfo)
      modifies this
      ensures trustedCas == old(trustedCas) + [ca]
      ensures crls == old(crls) && checkRevocation == old(checkRevocation)
      ensures validateHostname == old(validateHostname) && hostname == old(hostname)
      ensures maxChainDepth == old(maxChainDepth) && allowSelfSigned == old(allowSelfSigned)
    {
      trustedCas := trustedCas + [ca];
    }

    /** `set_hostname`. */
    method SetHostname(name: string)
      modifies this
      ensures hostname == Some(name)
      ensures trustedCas == old(trustedCas) && crls == old(crls) && checkRevocation == old(checkRevocation)
      ensures validateHostname == old(validateHostname)
      ensures maxChainDepth == old(maxChainDepth) && allowSelfSigned == old(allowSelfSigned)
    {
      hostname := Some(name);
    }

    /** `validate` at instant `now`: expiry first, then the start of
      * validity, then the hostname when checking is on and a hostname is
      * set; nothing else is checked. */
    function Validate(cert: CertificateInfo, now: int): (r: ValidationResult)
      reads this
      ensures r in {Valid, Expired, NotYetValid, InvalidHostname}
      ensures r == Expired <==> cert.IsExpiredAt(now)
      ensures r == NotYetValid <==> !cert.IsExpiredAt(now) && cert.IsNotYetValidAt(now)
      ensures r == InvalidHostname <==>
                cert.IsValidAt(now) && validateHostname && hostname.Some?
                && !cert.ValidForHostname(hostname.value)
      ensures r == Valid <==>
                cert.IsValidAt(now) && (validateHostname && hostname.Some? ==> cert.ValidForHostname(hostname.value))
    {
      if cert.IsExpiredAt(now) then Expired
      else if cert.IsNotYetValidAt(now) then NotYetValid
      else if validateHostname && hostname.Some? && !cert.ValidForHostname(hostname.value) then InvalidHostname
      else Valid
    }
  }

  // ---------------------------------------------------------------------
  // Placeholder parsers

  const PEM_HEADER: string := "-----BEGIN CERTIFICATE-----"
  const ONE_YEAR: int := 365 * 24 * 3600

  function PlaceholderCertificate(subject: string, issuer: string, serial: string, fingerprint: string): CertificateInfo {
    CertificateInfo(subject, issuer, serial, 0, ONE_YEAR, fingerprint, "sha256WithRSAEncryption", 3, [], [], [])
  }

  /** `parse_certificate_pem`: empty input and input without the
    * certificate header are errors; anything else yields the fixed
    * placeholder certificate. */
  function ParseCertificatePem(pem: string): (r: Result<CertificateInfo>)
    ensures r.Success? <==> pem != [] && Contains(pem, PEM_HEADER)
    ensures pem == [] ==> r == Failure("Empty PEM data")
    ensures pem != [] && !Contains(pem, PEM_HEADER) ==> r == Failure("Invalid PEM format: missing certificate header")
    ensures r.Success? ==> r.value.subject == "CN=placeholder" && r.value.validFrom == 0
                           && r.value.validUntil == ONE_YEAR && r.value.version == 3
  {
    if pem == [] then Failure("Empty PEM data")
    else if !Contains(pem, PEM_HEADER) then Failure("Invalid PEM format: missing certificate header")
    else Success(PlaceholderCertificate("CN=placeholder", "CN=placeholder-ca", "00",
                   "00:00:00:00:00:00:00:00:00:00:00:00:00:00:00:00:00:00:00:00"))
  }

  /** `parse_certificate_der`: empty input is an error; anything else yields
    * the fixed placeholder certificate. */
  function ParseCertificateDer(der: seq<u8>): (r: Result<CertificateInfo>)
    ensures r.Success? <==> der != []
    ensures r.Failure? ==> r.error == "Empty DER data"
    ensures r.Success? ==> r.value.subject == "CN=placeholder-der" && r.value.validUntil == ONE_YEAR
  {
    if der == [] then Failure("Empty DER data")
    else Success(PlaceholderCertificate("CN=placeholder-der", "CN=placeholder-der-ca", "01",
                   "01:01:01:01:01:01:01:01:01:01:01:01:01:01:01:01:01:01:01:01"))
  }

  const PLACEHOLDER_DIGEST: string := ":fingerprint:00:11:22:33:44:55:66:77:88:99:aa:bb:cc:dd:ee:ff:00:11:22:33"
  const PLACEHOLDER_FINGERPRINT: string := "placeholder" + PLACEHOLDER_DIGEST

  /** `calculate_fingerprint`: empty input is an error; anything else yields
    * the fixed placeholder string. */
  function CalculateFingerprint(data: seq<u8>): (r: Result<string>)
    ensures r.Success? <==> data != []
    ensures r.Failure? ==> r.error == "Empty certificate data"
    ensures r.Success? ==> Contains(r.value, "placeholder") && r.value == PLACEHOLDER_FINGERPRINT
  {
    if data == [] then Failure("Empty certificate data")
    else
      ContainsConcat([], "placeholder", PLACEHOLDER_DIGEST);
      assert [] + "placeholder" + PLACEHOLDER_DIGEST == PLACEHOLDER_FINGERPRINT;
      Success(PLACEHOLDER_FINGERPRINT)
  }

  /** The fingerprint does not depend on the certificate bytes: any two
    * non-empty inputs get the same answer. */
  lemma FingerprintIgnoresData(a: seq<u8>, b: seq<u8>)
    requires a != [] && b != []
    ensures CalculateFingerprint(a) == CalculateFingerprint(b) == Success(PLACEHOLDER_FINGERPRINT)
  {
  }

  // ---------------------------------------------------------------------
  // Certificate store

  /** The keys of `m` whose certificates satisfy `p`. */
  function Selected(m: map<string, CertificateInfo>, p: CertificateInfo -> bool): set<string> {
    set k | k in m && p(m[k])
  }

  class CertificateStore {
    var certificates: map<string, CertificateInfo>

    /** `CertificateStore::new` (also `Default`). */
    constructor New()
      ensures certificates == map[]
    {
      certificates := map[];
    }

    /** `count`. */
    function Count(): (n: nat)
      reads this
      ensures n == |certificates.Keys|
    {
      |certificates|
    }

    /** `get_certificate`: the certificate stored under the fingerprint. */
    function GetCertificate(fingerprint: string): (r: Option<CertificateInfo>)
      reads this
      ensures r.Some? <==> fingerprint in certificates
      ensures r.Some? ==> r.value == certificates[fingerprint]
    {
      if fingerprint in certificates then Some(certificates[fingerprint]) else None
    }

    /** `add_certificate`: stored under its own fingerprint, replacing any
      * certificate with the same fingerprint. */
    method AddCertificate(cert: CertificateInfo)
      modifies this
      ensures certificates == old(certificates)[cert.fingerprint := cert]
      ensures GetCertificate(cert.fingerprint) == Some(cert)
      ensures Count() == old(Count()) + (if cert.fingerprint in old(certificates) then 0 else 1)
    {
      certificates := certificates[cert.fingerprint := cert];
    }

    /** `remove_certificate`: takes the certificate out and returns it. */
    method RemoveCertificate(fingerprint: string) returns (removed: Option<CertificateInfo>)
      modifies this
      ensures removed == old(GetCertificate(fingerprint))
      ensures certificates == old(certificates) - {fingerprint}
      ensures GetCertificate(fingerprint) == None
      ensures Count() == old(Count()) - (if removed.Some? then 1 else 0)
    {
      removed := GetCertificate(fingerprint);
      if fingerprint in certificates {
        assert certificates.Keys == (certificates - {fingerprint}).Keys + {fingerprint};
      }
      certificates := certificates - {fingerprint};
    }

    /** `clear`. */
    method Clear()
      modifies this
      ensures certificates == map[] && Count() == 0
    {
      certificates := map[];
    }

    /** The values of the table whose certificates satisfy `p`, each stored
      * certificate once (the shared body of `get_all_certificates` and the
      * `find_*` filters; the order is unspecified). */
    method Filter(p: CertificateInfo -> bool) returns (found: seq<CertificateInfo>, ghost keys: seq<string>)
      ensures |found| == |keys| == |Selected(certificates, p)|
      ensures forall i :: 0 <= i < |keys| ==> keys[i] in certificates && found[i] == certificates[keys[i]]
      ensures forall i, j :: 0 <= i < j < |keys| ==> keys[i] != keys[j]
      ensures forall k :: k in keys <==> k in Selected(certificates, p)
      ensures forall i :: 0 <= i < |found| ==> p(found[i])
    {
      var remaining := certificates.Keys;
      found, keys := [], [];
      while remaining != {}
        invariant remaining <= certificates.Keys
        invariant |found| == |keys|
        invariant forall i :: 0 <= i < |keys| ==> keys[i] in certificates && found[i] == certificates[keys[i]]
        invariant forall i, j :: 0 <= i < j < |keys| ==> keys[i] != keys[j]
        invariant forall k :: k in keys <==> k in Selected(certificates, p) && k !in remaining
        invariant forall i :: 0 <= i < |found| ==> p(found[i])
        decreases |remaining|
      {
        var k :| k in remaining;
        if p(certificates[k]) {
          found, keys := found + [certificates[k]], keys + [k];
        }
        remaining := remaining - {k};
      }
      DistinctCount(keys, Selected(certificates, p));
    }

    /** `get_all_certificates`. */
    method GetAllCertificates() returns (all: seq<CertificateInfo>)
      ensures |all| == Count()
      ensures forall c :: c in all <==> c in certificates.Values
    {
      ghost var keys;
      all, keys := Filter((c: CertificateInfo) => true);
      assert Selected(certificates, c => true) == certificates.Keys;
      forall c | c in certificates.Values ensures c in all {
        var k :| k in certificates && certificates[k] == c;
        var i :| 0 <= i < |keys| && keys[i] == k;
        assert all[i] == c;
      }
    }

    /** `find_by_subject`: certificates whose subject contains the text. */
    method FindBySubject(subject: string) returns (found: seq<CertificateInfo>)
      ensures forall c :: c in found <==> c in certificates.Values && Contains(c.subject, subject)
      ensures |found| == |set k | k in certificates && Contains(certificates[k].subject, subject)|
    {
      var p := (c: CertificateInfo) => Contains(c.subject, subject);
      ghost var keys;
      found, keys := Filter(p);
      ValuesSelected(keys, found, p);
      assert Selected(certificates, p) == set k | k in certificates && Contains(certificates[k].subject, subject);
    }

    /** `find_by_issuer`: certificates whose issuer contains the text. */
    method FindByIssuer(issuer: string) returns (found: seq<CertificateInfo>)
      ensures forall c :: c in found <==> c in certificates.Values && Contains(c.issuer, issuer)
      ensures |found| == |set k | k in certificates && Contains(certificates[k].issuer, issuer)|
    {
      var p := (c: CertificateInfo) => Contains(c.issuer, issuer);
      ghost var keys;
      found, keys := Filter(p);
      ValuesSelected(keys, found, p);
      assert Selected(certificates, p) == set k | k in certificates && Contains(certificates[k].issuer, issuer);
    }

    /** `find_expired` at instant `now`. */
    method FindExpired(now: int) returns (found: seq<CertificateInfo>)
      ensures forall c :: c in found <==> c in certificates.Values && c.IsExpiredAt(now)
      ensures |found| == |set k | k in certificates && certificates[k].IsExpiredAt(now)|
    {
      var p := (c: CertificateInfo) => c.IsExpiredAt(now);
      ghost var keys;
      found, keys := Filter(p);
      ValuesSelected(keys, found, p);
      assert Selected(certificates, p) == set k | k in certificates && certificates[k].IsExpiredAt(now);
    }

    /** `find_expiring_within` at instant `now`: not yet expired, and
      * expiring no later than `now + within`. */
    method FindExpiringWithin(now: int, within: nat) returns (found: seq<CertificateInfo>)
      ensures forall c :: c in found <==>
                c in certificates.Values && c.validUntil <= now + within && !c.IsExpiredAt(now)
      ensures |found| == |set k | k in certificates && certificates[k].validUntil <= now + within
                                   && !certificates[k].IsExpiredAt(now)|
    {
      var p := (c: CertificateInfo) => c.validUntil <= now + within && !c.IsExpiredAt(now);
      ghost var keys;
      found, keys := Filter(p);
      ValuesSelected(keys, found, p);
      assert Selected(certificates, p) == set k | k in certificates && certificates[k].validUntil <= now + within
                                                  && !certificates[k].IsExpiredAt(now);
    }

    /** What `Filter` promises, read as a statement about stored values. */
    lemma ValuesSelected(keys: seq<string>, found: seq<CertificateInfo>, p: CertificateInfo -> bool)
      requires |found| == |keys|
      requires forall i :: 0 <= i < |keys| ==> keys[i] in certificates && found[i] == certificates[keys[i]]
      requires forall k :: k in keys <==> k in Selected(certificates, p)
      ensures forall c :: c in found <==> c in certificates.Values && p(c)
    {
      forall c | c in certificates.Values && p(c) ensures c in found {
        var k :| k in certificates && certificates[k] == c;
        assert k in Selected(certificates, p);
        var i :| 0 <= i < |keys| && keys[i] == k;
        assert found[i] == c;
      }
      forall c | c in found ensures c in certificates.Values && p(c) {
        var i :| 0 <= i < |found| && found[i] == c;
        assert keys[i] in Selected(certificates, p);
      }
    }
  }

  /** A sequence without repeats listing exactly the elements of `s` has
    * `|s|` entries. */
  lemma {:induction false} DistinctCount(keys: seq<string>, s: set<string>)
    requires forall i, j :: 0 <= i < j < |keys| ==> keys[i] != keys[j]
    requires forall k :: k in keys <==> k in s
    ensures |keys| == |s|
    decreases |keys|
  {
    if keys != [] {
      var last := keys[|keys| - 1];
      var init := keys[..|keys| - 1];
      assert forall k :: k in init <==> k in s - {last} by {
        forall k ensures k in init <==> k in s - {last} {
          if k in init {
            var i :| 0 <= i < |init| && init[i] == k;
            assert keys[i] == k;
          }
          if k in s - {last} {
            var i :| 0 <= i < |keys| && keys[i] == k;
            assert i < |keys| - 1;
            assert init[i] == k;
          }
        }
      }
      DistinctCount(init, s - {last});
    } else {
      assert forall k :: k !in s;
      assert s == {};
    }
  }

  // ---------------------------------------------------------------------
  // Distinguished names

  /** The key and value of one comma-separated part: both trimmed, split at
    * the first `=` of the trimmed part; none without `=`. */
  function PartField(part: string): Option<(string, string)> {
    var p := Trim(part);
    match FindChar(p, '=')
    case None => None
    case Some(eq) => Some((Trim(p[..eq]), Trim(p[eq + 1..])))
  }

  /** The part names the field, compared ignoring ASCII case. */
  predicate FieldMatches(part: string, field: string) {
    PartField(part).Some? && EqIgnoreAsciiCase(PartField(part).value.0, field)
  }

  /** The first part naming the field. */
  function FieldIndex(parts: seq<string>, field: string): (r: Option<nat>)
    ensures r.None? <==> forall i :: 0 <= i < |parts| ==> !FieldMatches(parts[i], field)
    ensures r.Some? ==> r.value < |parts| && FieldMatches(parts[r.value], field)
    ensures r.Some? ==> forall j :: 0 <= j < r.value ==> !FieldMatches(parts[j], field)
  {
    FirstIndex(parts, Matcher(field))
  }

  /** The test of one part against the field. */
  function Matcher(field: string): string -> bool {
    part => FieldMatches(part, field)
  }

  /** The first index is determined by the scan's facts. */
  lemma FirstIndexUnique<T>(xs: seq<T>, p: T -> bool, k: nat)
    requires k <= |xs| && forall j :: 0 <= j < k ==> !p(xs[j])
    requires k < |xs| ==> p(xs[k])
    ensures FirstIndex(xs, p) == if k < |xs| then Some(k) else None
  {
  }

  /** The first element satisfying `p`. */
  function FirstIndex<T>(xs: seq<T>, p: T -> bool): (r: Option<nat>)
    ensures r.None? <==> forall i :: 0 <= i < |xs| ==> !p(xs[i])
    ensures r.Some? ==> r.value < |xs| && p(xs[r.value])
    ensures r.Some? ==> forall j :: 0 <= j < r.value ==> !p(xs[j])
  {
    if xs == [] then None
    else if p(xs[0]) then Some(0)
    else match FirstIndex(xs[1..], p)
      case None => None
      case Some(i) => Some(i + 1)
  }

  /** `extract_subject_field` as a function: the trimmed value of the first
    * comma-separated part whose key matches, or none. */
  function SubjectField(dn: string, field: string): Option<string> {
    var parts := Split(dn, ',');
    match FieldIndex(parts, field)
    case None => None
    case Some(i) => Some(PartField(parts[i]).value.1)
  }

  /** `extract_subject_field`: splits at commas and scans the parts. */
  method ExtractSubjectField(dn: string, field: string) returns (r: Option<string>)
    ensures r == SubjectField(dn, field)
  {
    var parts := Split(dn, ',');
    var i := FindField(parts, field);
    r := if i.Some? then Some(PartField(parts[i.value]).value.1) else None;
  }

  /** The scan of `extract_subject_field`: the parts in order, stopping at
    * the first match. */
  method FindField(parts: seq<string>, field: string) returns (r: Option<nat>)
    ensures r == FieldIndex(parts, field)
  {
    r := FindFirst(parts, Matcher(field));
  }

  /** The loop of `extract_subject_field` with the test of one part left
    * abstract: the elements in order, stopping at the first that passes. */
  method FindFirst<T>(xs: seq<T>, p: T -> bool) returns (r: Option<nat>)
    ensures r == FirstIndex(xs, p)
  {
    for i := 0 to |xs|
      invariant forall j :: 0 <= j < i ==> !p(xs[j])
    {
      if p(xs[i]) {
        FirstIndexUnique(xs, p, i);
        return Some(i);
      }
    }
    FirstIndexUnique(xs, p, |xs|);
    return None;
  }

  /** Non-empty, with no whitespace at either end. */
  predicate Trimmed(s: string) {
    s != [] && !IsWhitespace(s[0]) && !IsWhitespace(s[|s| - 1])
  }

  /** A trimmed `key=value` pair with no separator inside. */
  predicate PlainPair(key: string, value: string) {
    Trimmed(key) && Trimmed(value) && '=' !in key && ',' !in key && ',' !in value
  }

  /** A leading `key=value` part whose key matches yields its value. */
  lemma SubjectFieldFirst(key: string, value: string, rest: string, field: string)
    requires PlainPair(key, value) && EqIgnoreAsciiCase(key, field)
    ensures SubjectField(key + "=" + value + "," + rest, field) == Some(value)
    ensures SubjectField(key + "=" + value, field) == Some(value)
  {
    var part := key + "=" + value;
    assert ',' !in part;
    SplitPrefix(part, ',', rest);
    assert key + "=" + value + "," + rest == part + [','] + rest;
    SplitNoSep(part, ',');
    PartOf(key, value);
  }

  /** A leading part whose key does not match is skipped. */
  lemma SubjectFieldSkip(part: string, rest: string, field: string)
    requires ',' !in part && !FieldMatches(part, field)
    ensures SubjectField(part + "," + rest, field) == SubjectField(rest, field)
  {
    SplitPrefix(part, ',', rest);
    assert part + "," + rest == part + [','] + rest;
  }

  /** The key and value of a trimmed `key=value` part. */
  lemma PartOf(key: string, value: string)
    requires PlainPair(key, value)
    ensures PartField(key + "=" + value) == Some((key, value))
  {
    var part := key + "=" + value;
    TrimNoop(key);
    TrimNoop(value);
    TrimNoop(part);
    FindCharAfter(key, '=', value);
    assert key + ['='] + value == part;
    assert part[..|key|] == key && part[|key| + 1..] == value;
  }

  /** A last part whose key does not match leaves nothing to find. */
  lemma SubjectFieldLast(part: string, field: string)
    requires ',' !in part && !FieldMatches(part, field)
    ensures SubjectField(part, field) == None
  {
    SplitNoSep(part, ',');
  }

  /** `get_common_name`. */
  function CommonName(cert: CertificateInfo): Option<string> {
    SubjectField(cert.subject, "CN")
  }

  /** `get_organization`. */
  function Organization(cert: CertificateInfo): Option<string> {
    SubjectField(cert.subject, "O")
  }

  /** `get_country`. */
  function Country(cert: CertificateInfo): Option<string> {
    SubjectField(cert.subject, "C")
  }

  /** Of three plain parts, the first whose key names the field gives its
    * value. */
  lemma SubjectFieldOfThree(k1: string, v1: string, k2: string, v2: string, k3: string, v3: string, field: string)
    requires PlainPair(k1, v1) && PlainPair(k2, v2) && PlainPair(k3, v3)
    ensures SubjectField(k1 + "=" + v1 + "," + (k2 + "=" + v2 + "," + (k3 + "=" + v3)), field) ==
              if EqIgnoreAsciiCase(k1, field) then Some(v1)
              else if EqIgnoreAsciiCase(k2, field) then Some(v2)
              else if EqIgnoreAsciiCase(k3, field) then Some(v3)
              else None
  {
    var p1, p2, p3 := k1 + "=" + v1, k2 + "=" + v2, k3 + "=" + v3;
    PartOf(k1, v1);
    PartOf(k2, v2);
    PartOf(k3, v3);
    assert ',' !in p1 && ',' !in p2 && ',' !in p3;
    if EqIgnoreAsciiCase(k1, field) {
      SubjectFieldFirst(k1, v1, p2 + "," + p3, field);
    } else {
      SubjectFieldSkip(p1, p2 + "," + p3, field);
      if EqIgnoreAsciiCase(k2, field) {
        SubjectFieldFirst(k2, v2, p3, field);
      } else {
        SubjectFieldSkip(p2, p3, field);
        if EqIgnoreAsciiCase(k3, field) {
          SubjectFieldFirst(k3, v3, "", field);
        } else {
          SubjectFieldLast(p3, field);
        }
      }
    }
  }

  const EXAMPLE_SUBJECT: string := "CN=example.com,O=Example Corp,C=US"

  lemma ExampleSubjectParts()
    ensures EXAMPLE_SUBJECT == "CN" + "=" + "example.com" + "," + ("O" + "=" + "Example Corp" + "," + ("C" + "=" + "US"))
  {
  }

  lemma ExamplePairsPlain()
    ensures PlainPair("CN", "example.com")
    ensures PlainPair("O", "Example Corp")
    ensures PlainPair("C", "US")
  {
    assert PlainPair("CN", "example.com");
    assert PlainPair("O", "Example Corp");
  }

  /** The fields of `CN=example.com,O=Example Corp,C=US`: the value of the
    * first part whose key names the field, compared without regard to
    * ASCII case, and none for a field that is absent. */
  lemma SubjectFieldExample(field: string)
    ensures SubjectField(EXAMPLE_SUBJECT, field) ==
              if EqIgnoreAsciiCase("CN", field) then Some("example.com")
              else if EqIgnoreAsciiCase("O", field) then Some("Example Corp")
              else if EqIgnoreAsciiCase("C", field) then Some("US")
              else None
  {
    ExampleSubjectParts();
    ExamplePairsPlain();
    SubjectFieldOfThree("CN", "example.com", "O", "Example Corp", "C", "US", field);
  }

  /** The certificate of the source's tests at instant `now`: valid from an
    * hour ago for a year, for `example.com` and `*.example.com`. */
  function TestCertificate(now: int): CertificateInfo {
    CertificateInfo(EXAMPLE_SUBJECT, "CN=Example CA,O=Example Corp,C=US", "123456789",
      now - 3600, now + ONE_YEAR,
      "aa:bb:cc:dd:ee:ff:00:11:22:33:44:55:66:77:88:99:aa:bb:cc:dd", "sha256WithRSAEncryption", 3,
      ["example.com", "*.example.com"], [DigitalSignature, KeyEncipherment], [ServerAuth])
  }

  /** The test certificate is valid now, for its name and one wildcard
    * level, and a context checking `example.com` accepts it. */
  lemma TestCertificateValid(now: int, ctx: ValidationContext)
    requires ctx.validateHostname && ctx.hostname == Some("example.com")
    ensures TestCertificate(now).IsValidAt(now)
    ensures TestCertificate(now).ValidForHostname("example.com")
    ensures TestCertificate(now).ValidForHostname("sub.example.com")
    ensures ctx.Validate(TestCertificate(now), now) == Valid
    ensures CommonName(TestCertificate(now)) == Some("example.com")
    ensures Organization(TestCertificate(now)) == Some("Example Corp")
    ensures Country(TestCertificate(now)) == Some("US")
  {
    var c := TestCertificate(now);
    assert SanMatches(c.subjectAltNames[0], "example.com");
    WildcardSingleLevel();
    assert SanMatches(c.subjectAltNames[1], "sub.example.com");
    SubjectFieldExample("CN");
    SubjectFieldExample("O");
    SubjectFieldExample("C");
  }

  /** The test certificate is neither expired nor not yet valid, carries the
    * digital-signature and key-encipherment usages but not certificate
    * signing, and is for server but not client authentication. */
  lemma TestCertificateUsages(now: int)
    ensures !TestCertificate(now).IsExpiredAt(now) && !TestCertificate(now).IsNotYetValidAt(now)
    ensures TestCertificate(now).HasKeyUsage(DigitalSignature)
    ensures TestCertificate(now).HasKeyUsage(KeyEncipherment)
    ensures !TestCertificate(now).HasKeyUsage(KeyCertSign)
    ensures TestCertificate(now).HasExtendedKeyUsage(ServerAuth)
    ensures !TestCertificate(now).HasExtendedKeyUsage(ClientAuth)
  {
  }
}
