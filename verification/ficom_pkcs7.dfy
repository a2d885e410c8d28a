/** The PKCS#7 signature wrapper: build it from the bytes of a ContentInfo holding a
    SignedData, then resolve the certificate of its single signer by pairing every
    SignerInfo's IssuerAndSerialNumber with every embedded certificate. */
module FiComPkcs7 {
  import opened Outcome
  import opened Octets
  import opened Failures
  import opened Asn1
  import opened Names
  import Decimal
  import Seqs
  import CommonName

  /** A constructed wrapper: the SignedData it holds. */
  datatype Pkcs7 = Pkcs7(sd: SignedData)

  /** The shape the constructor admits: a SignerInfo set with exactly one raw entry,
      whether or not that entry later decodes. */
  predicate HasOneRawSignerInfo(sd: SignedData) {
    sd.signerInfos.Some? && |sd.signerInfos.value| == 1
  }

  // ---------------------------------------------------------------- construction

  /** Bytes to SignedData: read one ASN.1 object, view it as a ContentInfo, check that its
      content type is signedData and view its content as a SignedData. */
  function BytesToPkcs7SignedData(dec: Decoders, bytes: Option<Bytes>): (r: Result<SignedData, Error>)
    ensures r == Failure(NullInput) <==> bytes.None?
    ensures r.Success? <==>
      && bytes.Some?
      && dec.readObject(bytes.value).Some?
      && dec.contentInfo(dec.readObject(bytes.value).value).Some?
      && dec.contentInfo(dec.readObject(bytes.value).value).value.contentType == SignedDataOid
      && dec.signedData(dec.contentInfo(dec.readObject(bytes.value).value).value.content).Some?
    ensures r.Success? ==>
      dec.signedData(dec.contentInfo(dec.readObject(bytes.value).value).value.content) == Some(r.value)
    ensures r == Failure(NotPkcs7Signature) <==>
      && bytes.Some?
      && (|| dec.readObject(bytes.value).None?
          || (&& dec.contentInfo(dec.readObject(bytes.value).value).Some?
              && dec.contentInfo(dec.readObject(bytes.value).value).value.contentType != SignedDataOid))
    ensures r.Failure? ==> r.error == NullInput || r.error == NotPkcs7Signature || r.error == LibraryFailure
  {
    if bytes.None? then Failure(NullInput)
    else
      match dec.readObject(bytes.value)
      case None => Failure(NotPkcs7Signature)
      case Some(obj) =>
        match dec.contentInfo(obj)
        case None => Failure(LibraryFailure)
        case Some(ci) =>
          if ci.contentType != SignedDataOid then Failure(NotPkcs7Signature)
          else
            match dec.signedData(ci.content)
            case None => Failure(LibraryFailure)
            case Some(sd) => Success(sd)
  }

  /** The constructor: it succeeds exactly on bytes that decode to a SignedData whose
      SignerInfo set has one raw entry, and then keeps that SignedData. */
  function New(dec: Decoders, bytes: Option<Bytes>): (r: Result<Pkcs7, Error>)
    ensures r.Success? <==>
      BytesToPkcs7SignedData(dec, bytes).Success? && HasOneRawSignerInfo(BytesToPkcs7SignedData(dec, bytes).value)
    ensures r.Success? ==> r.value.sd == BytesToPkcs7SignedData(dec, bytes).value
    ensures BytesToPkcs7SignedData(dec, bytes).Failure? ==> r == Failure(BytesToPkcs7SignedData(dec, bytes).error)
    ensures BytesToPkcs7SignedData(dec, bytes).Success? && !HasOneRawSignerInfo(BytesToPkcs7SignedData(dec, bytes).value)
      ==> r == Failure(NotOneSignerInfo)
    ensures r.Failure? ==> r.error.IsOwnIllegalArgument() || r.error == LibraryFailure
  {
    if bytes.None? then Failure(NullInput)
    else
      var sd :- BytesToPkcs7SignedData(dec, bytes);
      if !HasOneRawSignerInfo(sd) then Failure(NotOneSignerInfo) else Success(Pkcs7(sd))
  }

  // ---------------------------------------------------------------- extraction

  /** The certificate loop over the raw entries: keeps decoded certificates in order,
      skips entries whose failure the loop catches, and stops at the first entry whose
      failure it does not catch. */
  function CollectCerts(dec: Decoders, entries: seq<Bytes>): (r: Result<seq<Certificate>, Error>)
    ensures r.Failure? <==> exists k :: 0 <= k < |entries| && dec.CertificateEntry(entries[k]).Raised?
    ensures r.Failure? ==> r.error == LibraryFailure
    ensures r.Success? ==> |r.value| <= |entries|
  {
    if |entries| == 0 then Success([])
    else
      assert forall k :: 1 <= k < |entries| ==> entries[k] == entries[1..][k - 1];
      match dec.CertificateEntry(entries[0])
      case Raised => Failure(LibraryFailure)
      case Dropped => CollectCerts(dec, entries[1..])
      case Decoded(c) =>
        var rest :- CollectCerts(dec, entries[1..]);
        Success([c] + rest)
  }

  /** What the certificate loop keeps: exactly the decoded certificates, so it comes back
      empty exactly when every entry was dropped. */
  lemma {:induction false} CollectCertsContents(dec: Decoders, entries: seq<Bytes>)
    requires CollectCerts(dec, entries).Success?
    ensures forall i :: 0 <= i < |CollectCerts(dec, entries).value| ==>
      exists k :: 0 <= k < |entries| && dec.CertificateEntry(entries[k]) == Decoded(CollectCerts(dec, entries).value[i])
    ensures forall k :: 0 <= k < |entries| && dec.CertificateEntry(entries[k]).Decoded? ==>
      dec.CertificateEntry(entries[k]).value in CollectCerts(dec, entries).value
    ensures |CollectCerts(dec, entries).value| == 0 <==>
      forall k :: 0 <= k < |entries| ==> dec.CertificateEntry(entries[k]).Dropped?
  {
    if |entries| > 0 {
      var rest := entries[1..];
      assert forall k :: 1 <= k < |entries| ==> entries[k] == rest[k - 1];
      CollectCertsContents(dec, rest);
    }
  }

  /** A certificate that re-encodes but does not decode as X.509 is not skipped: its
      failure escapes the IOException catch, so the whole loop fails. */
  lemma UndecodableCertificateRaises(dec: Decoders, entries: seq<Bytes>, k: nat)
    requires k < |entries|
    requires dec.reencode(entries[k]).Decoded? && dec.x509(dec.reencode(entries[k]).value).None?
    ensures CollectCerts(dec, entries) == Failure(LibraryFailure)
  {
    assert dec.CertificateEntry(entries[k]).Raised?;
  }

  /** readCerts: null for a null SignedData; otherwise the certificate loop over the
      certificate set, which throws a NullPointerException when the set is absent. */
  function ReadCerts(dec: Decoders, sd: Option<SignedData>): (r: Result<Option<seq<Certificate>>, Error>)
    ensures sd.None? ==> r == Success(None)
    ensures sd.Some? && sd.value.certificates.None? ==> r == Failure(LibraryFailure)
    ensures sd.Some? && sd.value.certificates.Some? ==>
      (r.Success? <==> CollectCerts(dec, sd.value.certificates.value).Success?)
    ensures sd.Some? && r.Success? ==> r.value == Some(CollectCerts(dec, sd.value.certificates.value).value)
    ensures r.Failure? ==> r.error == LibraryFailure
  {
    if sd.None? then Success(None)
    else if sd.value.certificates.None? then Failure(LibraryFailure)
    else
      var certs :- CollectCerts(dec, sd.value.certificates.value);
      Success(Some(certs))
  }

  /** readSignerInfos: null for a null SignedData; otherwise every SignerInfo entry that
      decodes, in order, with the failures (all caught) dropped. */
  function ReadSignerInfos(dec: Decoders, sd: Option<SignedData>): (r: Result<Option<seq<SignerInfo>>, Error>)
    ensures sd.None? ==> r == Success(None)
    ensures sd.Some? && sd.value.signerInfos.None? ==> r == Failure(LibraryFailure)
    ensures sd.Some? && sd.value.signerInfos.Some? ==>
      r == Success(Some(Seqs.FilterMap(sd.value.signerInfos.value, dec.signerInfo)))
  {
    if sd.None? then Success(None)
    else if sd.value.signerInfos.None? then Failure(LibraryFailure)
    else Success(Some(Seqs.FilterMap(sd.value.signerInfos.value, dec.signerInfo)))
  }

  /** readSerial: the decimal string of the serial's unsigned value; null for null. */
  function ReadSerial(si: Option<SignerInfo>): (r: Option<string>)
    ensures r.None? <==> si.None?
    ensures r.Some? ==> Decimal.Canonical(r.value) && Decimal.Parse(r.value) == Some(si.value.serial as int)
  {
    match si
    case None => None
    case Some(info) =>
      Decimal.ParseRender(info.serial);
      Decimal.DigitsCanonical(info.serial);
      Some(Decimal.Render(info.serial))
  }

  /** readIssuer: the issuer name's string form; null for null. */
  function ReadIssuer(si: Option<SignerInfo>): (r: Option<string>)
    ensures r.None? <==> si.None?
    ensures r.Some? ==> r.value == si.value.issuer
  {
    match si
    case None => None
    case Some(info) => Some(info.issuer)
  }

  // ---------------------------------------------------------------- matching

  /** dnsEqual: false when either name is null (both null included); otherwise both
      strings are parsed as X509Names, and a string the parser rejects makes the call
      throw; parsed names are compared ignoring attribute order. */
  function DnsEqual(np: NameParsers, dn1: Option<string>, dn2: Option<string>): (r: Result<bool, Error>)
    ensures dn1.None? || dn2.None? ==> r == Success(false)
    ensures dn1.Some? && dn2.Some? ==> (r.Failure? <==> !Parses(np, dn1.value) || !Parses(np, dn2.value))
    ensures r.Failure? ==> r.error == LibraryFailure
    ensures r == Success(true) <==> dn1.Some? && dn2.Some? && SameName(np, dn1.value, dn2.value)
  {
    if dn1.None? || dn2.None? then Success(false)
    else
      match np.x509Name(dn1.value)
      case None => Failure(LibraryFailure)
      case Some(n1) =>
        match np.x509Name(dn2.value)
        case None => Failure(LibraryFailure)
        case Some(n2) => Success(Equivalent(np, n1, n2))
  }

  /** dnsEqual does not depend on the order of the attributes within a name: two DN
      strings that parse to reorderings of each other compare alike against any third. */
  lemma DnsEqualIgnoresOrder(np: NameParsers, dn1: string, dn1': string, dn2: Option<string>)
    requires Parses(np, dn1) && Parses(np, dn1')
    requires multiset(np.x509Name(dn1).value) == multiset(np.x509Name(dn1').value)
    ensures DnsEqual(np, Some(dn1), dn2) == DnsEqual(np, Some(dn1'), dn2)
  {
    if dn2.Some? && Parses(np, dn2.value) {
      EquivalentIgnoresOrder(np, np.x509Name(dn1).value, np.x509Name(dn1').value, np.x509Name(dn2.value).value);
    }
  }

  /** dnsEqual is symmetric, in its answer and in when it throws. */
  lemma DnsEqualSymmetric(np: NameParsers, dn1: Option<string>, dn2: Option<string>)
    ensures DnsEqual(np, dn1, dn2) == DnsEqual(np, dn2, dn1)
  {
  }

  /** Both issuer names of a (signer info, certificate) pair parse. */
  predicate PairParses(np: NameParsers, si: SignerInfo, c: Certificate) {
    Parses(np, si.issuer) && Parses(np, c.issuer)
  }

  /** The reference relation: the signer info names the certificate's issuer and serial. */
  predicate Designates(np: NameParsers, si: SignerInfo, c: Certificate) {
    SameName(np, si.issuer, c.issuer) && si.serial == c.serial
  }

  /** One pass of the inner loop body: issuer names compared with dnsEqual, serials
      compared as decimal strings. */
  function PairMatches(np: NameParsers, si: SignerInfo, c: Certificate): (r: Result<bool, Error>)
    ensures r.Failure? <==> !PairParses(np, si, c)
    ensures r.Failure? ==> r.error == LibraryFailure
    ensures r.Success? ==> (r.value <==> Designates(np, si, c))
  {
    var issuersEqual :- DnsEqual(np, ReadIssuer(Some(si)), Some(c.issuer));
    Decimal.RenderInjective(si.serial, c.serial);
    Success(issuersEqual && ReadSerial(Some(si)).value == Decimal.Render(c.serial))
  }

  /** The certificates a signer info designates, in certificate order, each kept once per
      occurrence. */
  function Designated(np: NameParsers, si: SignerInfo, certs: seq<Certificate>): (r: seq<Certificate>)
    ensures |r| <= |certs|
  {
    if |certs| == 0 then []
    else (if Designates(np, si, certs[0]) then [certs[0]] else []) + Designated(np, si, certs[1..])
  }

  /** Designated keeps every occurrence of a designated certificate and nothing else. */
  lemma {:induction false} DesignatedMultiplicity(np: NameParsers, si: SignerInfo, certs: seq<Certificate>, c: Certificate)
    ensures multiset(Designated(np, si, certs))[c] == if Designates(np, si, c) then multiset(certs)[c] else 0
  {
    if |certs| > 0 {
      DesignatedMultiplicity(np, si, certs[1..], c);
      Seqs.Cons(certs);
    }
  }

  /** A certificate is selected iff it is one of the certificates and si designates it. */
  lemma {:induction false} DesignatedSelects(np: NameParsers, si: SignerInfo, certs: seq<Certificate>)
    ensures forall c :: c in Designated(np, si, certs) <==> c in certs && Designates(np, si, c)
  {
    forall c
      ensures c in Designated(np, si, certs) <==> c in certs && Designates(np, si, c)
    {
      DesignatedMultiplicity(np, si, certs, c);
      assert c in Designated(np, si, certs) <==> c in multiset(Designated(np, si, certs));
      assert c in certs <==> c in multiset(certs);
    }
  }

  /** Every certificate of the pair list parses against si. */
  predicate AllPairsParse(np: NameParsers, si: SignerInfo, certs: seq<Certificate>) {
    forall j :: 0 <= j < |certs| ==> PairParses(np, si, certs[j])
  }

  /** The inner loop: every certificate compared with one signer info, no early exit. */
  function MatchCerts(np: NameParsers, si: SignerInfo, certs: seq<Certificate>): (r: Result<seq<Certificate>, Error>)
    ensures r.Failure? <==> !AllPairsParse(np, si, certs)
    ensures r.Failure? ==> r.error == LibraryFailure
    ensures r.Success? ==> r.value == Designated(np, si, certs)
  {
    if |certs| == 0 then Success([])
    else
      assert forall j :: 1 <= j < |certs| ==> certs[j] == certs[1..][j - 1];
      var m :- PairMatches(np, si, certs[0]);
      var rest :- MatchCerts(np, si, certs[1..]);
      Success(if m then [certs[0]] + rest else rest)
  }

  /** The elements of a sequence are its head and the elements of its tail. */
  lemma TailIndices(sis: seq<SignerInfo>)
    requires |sis| > 0
    ensures forall i :: 1 <= i < |sis| ==> sis[i] == sis[1..][i - 1]
    ensures forall i :: 0 <= i < |sis| - 1 ==> sis[1..][i] == sis[i + 1]
  {
  }

  /** How many of the signer infos designate c. */
  function DesignatingCount(np: NameParsers, sis: seq<SignerInfo>, c: Certificate): (n: nat)
    ensures n <= |sis|
    ensures n > 0 <==> exists i :: 0 <= i < |sis| && Designates(np, sis[i], c)
  {
    if |sis| == 0 then 0
    else
      TailIndices(sis);
      (if Designates(np, sis[0], c) then 1 else 0) + DesignatingCount(np, sis[1..], c)
  }

  /** The nested loop of getSignerCerts: signer infos outside, certificates inside, every
      match appended and no early exit. */
  function MatchSignerInfos(np: NameParsers, sis: seq<SignerInfo>, certs: seq<Certificate>): (r: Result<seq<Certificate>, Error>)
    ensures r.Failure? <==> exists i :: 0 <= i < |sis| && !AllPairsParse(np, sis[i], certs)
    ensures r.Failure? ==> r.error == LibraryFailure
    ensures r.Success? && |sis| == 1 ==> r.value == Designated(np, sis[0], certs)
  {
    if |sis| == 0 then Success([])
    else
      TailIndices(sis);
      var first :- MatchCerts(np, sis[0], certs);
      var rest :- MatchSignerInfos(np, sis[1..], certs);
      Success(first + rest)
  }

  lemma PositiveProduct(a: nat, b: nat)
    requires a * b > 0
    ensures a > 0 && b > 0
  {
  }

  /** One step of the outer loop: the matches of the first signer info, then the rest. */
  lemma MatchSignerInfosStep(np: NameParsers, sis: seq<SignerInfo>, certs: seq<Certificate>)
    requires |sis| > 0 && MatchSignerInfos(np, sis, certs).Success?
    ensures MatchSignerInfos(np, sis[1..], certs).Success?
    ensures MatchSignerInfos(np, sis, certs).value
         == Designated(np, sis[0], certs) + MatchSignerInfos(np, sis[1..], certs).value
  {
  }

  /** Counting c in a concatenation, where the first part holds c either m times or not at
      all and the second part k * m times. */
  lemma CountConcat(first: seq<Certificate>, rest: seq<Certificate>, c: Certificate, hit: bool, k: nat, m: nat)
    requires multiset(first)[c] == if hit then m else 0
    requires multiset(rest)[c] == k * m
    ensures multiset(first + rest)[c] == ((if hit then 1 else 0) + k) * m
  {
    assert multiset(first + rest) == multiset(first) + multiset(rest);
  }

  /** Every certificate is listed once for each (signer info, occurrence of the
      certificate) pair that matches: DesignatingCount(c) times its multiplicity. */
  lemma {:induction false} MatchSignerInfosMultiplicity(np: NameParsers, sis: seq<SignerInfo>, certs: seq<Certificate>, c: Certificate)
    requires MatchSignerInfos(np, sis, certs).Success?
    ensures multiset(MatchSignerInfos(np, sis, certs).value)[c] == DesignatingCount(np, sis, c) * multiset(certs)[c]
  {
    if |sis| > 0 {
      MatchSignerInfosStep(np, sis, certs);
      MatchSignerInfosMultiplicity(np, sis[1..], certs, c);
      DesignatedMultiplicity(np, sis[0], certs, c);
      CountConcat(Designated(np, sis[0], certs), MatchSignerInfos(np, sis[1..], certs).value, c,
                  Designates(np, sis[0], c), DesignatingCount(np, sis[1..], c), multiset(certs)[c]);
    }
  }

  /** Output order is signer-info-major: the matches of a prefix of the signer infos come
      before those of the rest. */
  lemma {:induction false} MatchSignerInfosAppend(np: NameParsers, a: seq<SignerInfo>, b: seq<SignerInfo>, certs: seq<Certificate>)
    requires MatchSignerInfos(np, a + b, certs).Success?
    ensures MatchSignerInfos(np, a, certs).Success? && MatchSignerInfos(np, b, certs).Success?
    ensures MatchSignerInfos(np, a + b, certs).value
         == MatchSignerInfos(np, a, certs).value + MatchSignerInfos(np, b, certs).value
  {
    if |a| == 0 {
      assert a + b == b;
    } else {
      assert (a + b)[0] == a[0];
      assert (a + b)[1..] == a[1..] + b;
      MatchSignerInfosAppend(np, a[1..], b, certs);
    }
  }

  /** The certificate loop keeps enumeration order: on a concatenation of entry lists it
      returns the concatenation of the two results, and fails when either part fails. */
  lemma {:induction false} CollectCertsAppend(dec: Decoders, a: seq<Bytes>, b: seq<Bytes>)
    ensures CollectCerts(dec, a + b).Success? <==> CollectCerts(dec, a).Success? && CollectCerts(dec, b).Success?
    ensures CollectCerts(dec, a + b).Success? ==>
      CollectCerts(dec, a + b).value == CollectCerts(dec, a).value + CollectCerts(dec, b).value
  {
    if |a| == 0 {
      assert a + b == b;
    } else {
      var ab := a + b;
      assert ab[0] == a[0];
      assert ab[1..] == a[1..] + b;
      CollectCertsAppend(dec, a[1..], b);
      match dec.CertificateEntry(a[0])
      case Raised =>
      case Dropped =>
        assert CollectCerts(dec, ab) == CollectCerts(dec, ab[1..]);
        assert CollectCerts(dec, a) == CollectCerts(dec, a[1..]);
      case Decoded(c) =>
        var tail := CollectCerts(dec, ab[1..]);
        var tailA := CollectCerts(dec, a[1..]);
        assert CollectCerts(dec, ab) == (if tail.Success? then Success([c] + tail.value) else tail);
        assert CollectCerts(dec, a) == (if tailA.Success? then Success([c] + tailA.value) else tailA);
        if tail.Success? {
          assert [c] + tail.value == [c] + tailA.value + CollectCerts(dec, b).value;
        }
    }
  }

  /** Every matched certificate is one of the certificates and is designated by one of
      the signer infos. */
  lemma MatchedCertificatesAreDesignated(np: NameParsers, sis: seq<SignerInfo>, certs: seq<Certificate>)
    requires MatchSignerInfos(np, sis, certs).Success?
    ensures forall i :: 0 <= i < |MatchSignerInfos(np, sis, certs).value| ==>
      && MatchSignerInfos(np, sis, certs).value[i] in certs
      && exists k :: 0 <= k < |sis| && Designates(np, sis[k], MatchSignerInfos(np, sis, certs).value[i])
  {
    var r := MatchSignerInfos(np, sis, certs).value;
    forall i | 0 <= i < |r|
      ensures r[i] in certs && exists k :: 0 <= k < |sis| && Designates(np, sis[k], r[i])
    {
      MatchSignerInfosMultiplicity(np, sis, certs, r[i]);
      assert multiset(r)[r[i]] > 0;
      PositiveProduct(DesignatingCount(np, sis, r[i]), multiset(certs)[r[i]]);
    }
  }

  // ---------------------------------------------------------------- resolution

  /** Some certificate entry decodes and none raises an uncaught failure. */
  predicate SomeCertificateDecodes(dec: Decoders, sd: SignedData) {
    && sd.certificates.Some?
    && (forall k :: 0 <= k < |sd.certificates.value| ==> !dec.CertificateEntry(sd.certificates.value[k]).Raised?)
    && (exists k :: 0 <= k < |sd.certificates.value| && dec.CertificateEntry(sd.certificates.value[k]).Decoded?)
  }

  /** The certificate set is present and every entry is dropped (including the empty set). */
  predicate NoCertificateDecodes(dec: Decoders, sd: SignedData) {
    && sd.certificates.Some?
    && forall k :: 0 <= k < |sd.certificates.value| ==> dec.CertificateEntry(sd.certificates.value[k]).Dropped?
  }

  /** The SignerInfo set is present and no entry decodes. */
  predicate NoSignerInfoDecodes(dec: Decoders, sd: SignedData) {
    && sd.signerInfos.Some?
    && forall k :: 0 <= k < |sd.signerInfos.value| ==> dec.signerInfo(sd.signerInfos.value[k]).None?
  }

  /** getSignerCerts: null check, certificates, signer infos, then the exhaustive match.
      The failures come in that order. */
  function GetSignerCerts(dec: Decoders, np: NameParsers, sd: Option<SignedData>): (r: Result<seq<Certificate>, Error>)
    ensures r == Failure(NullInput) <==> sd.None?
    ensures r == Failure(CertificatesNotFound) <==> sd.Some? && NoCertificateDecodes(dec, sd.value)
    ensures r == Failure(SignerInfoNotFound) <==>
      sd.Some? && SomeCertificateDecodes(dec, sd.value) && NoSignerInfoDecodes(dec, sd.value)
    ensures r.Failure? ==> r.error in {NullInput, CertificatesNotFound, SignerInfoNotFound, LibraryFailure}
    ensures r.Success? ==> sd.Some? && SomeCertificateDecodes(dec, sd.value) && sd.value.signerInfos.Some?
  {
    if sd.None? then Failure(NullInput)
    else
      var certs :- ReadCerts(dec, sd);
      CollectCertsContents(dec, sd.value.certificates.value);
      if |certs.value| == 0 then Failure(CertificatesNotFound)
      else
        var sis :- ReadSignerInfos(dec, sd);
        if |sis.value| == 0 then Failure(SignerInfoNotFound)
        else MatchSignerInfos(np, sis.value, certs.value)
  }

  /** Once some certificate decodes, none raises, and some SignerInfo decodes,
      getSignerCerts is the match of the decoded SignerInfos against the decoded
      certificates: it succeeds or fails exactly as that match does. */
  lemma GetSignerCertsMatches(dec: Decoders, np: NameParsers, sd: SignedData)
    requires SomeCertificateDecodes(dec, sd) && sd.signerInfos.Some? && !NoSignerInfoDecodes(dec, sd)
    ensures CollectCerts(dec, sd.certificates.value).Success?
    ensures GetSignerCerts(dec, np, Some(sd)) ==
      MatchSignerInfos(np, Seqs.FilterMap(sd.signerInfos.value, dec.signerInfo), CollectCerts(dec, sd.certificates.value).value)
  {
    CollectCertsContents(dec, sd.certificates.value);
  }

  /** c was decoded from one of the certificate entries. */
  ghost predicate DecodedFromEntry(dec: Decoders, entries: seq<Bytes>, c: Certificate) {
    exists k :: 0 <= k < |entries| && dec.CertificateEntry(entries[k]) == Decoded(c)
  }

  /** One of the SignerInfo entries decodes to a SignerInfo that designates c. */
  ghost predicate DesignatedByEntry(dec: Decoders, np: NameParsers, entries: seq<Bytes>, c: Certificate) {
    exists k :: 0 <= k < |entries| && dec.signerInfo(entries[k]).Some? && Designates(np, dec.signerInfo(entries[k]).value, c)
  }

  /** Every certificate getSignerCerts returns was decoded from the certificate set and is
      designated by a SignerInfo decoded from the SignerInfo set. */
  lemma GetSignerCertsContents(dec: Decoders, np: NameParsers, sd: SignedData)
    requires GetSignerCerts(dec, np, Some(sd)).Success?
    ensures sd.certificates.Some? && sd.signerInfos.Some?
    ensures forall i :: 0 <= i < |GetSignerCerts(dec, np, Some(sd)).value| ==>
      && DecodedFromEntry(dec, sd.certificates.value, GetSignerCerts(dec, np, Some(sd)).value[i])
      && DesignatedByEntry(dec, np, sd.signerInfos.value, GetSignerCerts(dec, np, Some(sd)).value[i])
  {
    GetSignerCertsMatches(dec, np, sd);
    var r := GetSignerCerts(dec, np, Some(sd)).value;
    var certs := CollectCerts(dec, sd.certificates.value).value;
    var sis := Seqs.FilterMap(sd.signerInfos.value, dec.signerInfo);
    MatchedCertificatesAreDesignated(np, sis, certs);
    CertificatesFromEntries(dec, sd.certificates.value, certs, r);
    SignerInfosFromEntries(dec, np, sd.signerInfos.value, sis, r);
  }

  /** Certificates drawn from the certificate loop's result were decoded from its entries. */
  lemma CertificatesFromEntries(dec: Decoders, entries: seq<Bytes>, certs: seq<Certificate>, r: seq<Certificate>)
    requires CollectCerts(dec, entries) == Success(certs)
    requires forall i :: 0 <= i < |r| ==> r[i] in certs
    ensures forall i :: 0 <= i < |r| ==> DecodedFromEntry(dec, entries, r[i])
  {
    CollectCertsContents(dec, entries);
    forall i | 0 <= i < |r|
      ensures DecodedFromEntry(dec, entries, r[i])
    {
      var j :| 0 <= j < |certs| && certs[j] == r[i];
    }
  }

  /** A certificate designated by a decoded signer info is designated by the decoding of
      one of the raw entries. */
  lemma SignerInfosFromEntries(dec: Decoders, np: NameParsers, entries: seq<Bytes>, sis: seq<SignerInfo>, r: seq<Certificate>)
    requires forall m :: 0 <= m < |sis| ==> exists k :: 0 <= k < |entries| && dec.signerInfo(entries[k]) == Some(sis[m])
    requires forall i :: 0 <= i < |r| ==> exists m :: 0 <= m < |sis| && Designates(np, sis[m], r[i])
    ensures forall i :: 0 <= i < |r| ==> DesignatedByEntry(dec, np, entries, r[i])
  {
    forall i | 0 <= i < |r|
      ensures DesignatedByEntry(dec, np, entries, r[i])
    {
      var m :| 0 <= m < |sis| && Designates(np, sis[m], r[i]);
      var k :| 0 <= k < |entries| && dec.signerInfo(entries[k]) == Some(sis[m]);
      assert dec.signerInfo(entries[k]).Some? && Designates(np, dec.signerInfo(entries[k]).value, r[i]);
    }
  }

  /** getSignerCert: the single certificate getSignerCerts returns; none and more than one
      are both failures. */
  function GetSignerCert(dec: Decoders, np: NameParsers, p: Pkcs7): (r: Result<Certificate, Error>)
    ensures r.Success? <==> GetSignerCerts(dec, np, Some(p.sd)).Success? && |GetSignerCerts(dec, np, Some(p.sd)).value| == 1
    ensures r.Success? ==> GetSignerCerts(dec, np, Some(p.sd)).value == [r.value]
    ensures GetSignerCerts(dec, np, Some(p.sd)) == Success([]) ==> r == Failure(SignerCertNotFound)
    ensures GetSignerCerts(dec, np, Some(p.sd)).Success? && |GetSignerCerts(dec, np, Some(p.sd)).value| > 1
      ==> r == Failure(MultipleSignerCerts(|GetSignerCerts(dec, np, Some(p.sd)).value|))
    ensures GetSignerCerts(dec, np, Some(p.sd)).Failure? ==> r == Failure(GetSignerCerts(dec, np, Some(p.sd)).error)
    ensures r.Failure? ==> r.error.IsFiComException() || r.error == LibraryFailure
  {
    var all :- GetSignerCerts(dec, np, Some(p.sd));
    if |all| < 1 then Failure(SignerCertNotFound)
    else if |all| > 1 then Failure(MultipleSignerCerts(|all|))
    else Success(all[0])
  }

  /** getSignerCn: never fails; None when resolution fails, the subject does not parse or
      it has no RDN of type exactly "CN", and otherwise the value of the last such RDN. */
  function GetSignerCn(dec: Decoders, np: NameParsers, p: Pkcs7): (r: Option<string>)
    ensures r.Some? <==> GetSignerCert(dec, np, p).Success? && CommonName.HasCn(np, GetSignerCert(dec, np, p).value.subject)
    ensures r.Some? ==> CommonName.IsLastCnOf(np, GetSignerCert(dec, np, p).value.subject, r.value)
  {
    match GetSignerCert(dec, np, p)
    case Failure(_) => None
    case Success(cert) => CommonName.SubjectCn(np, cert.subject)
  }

  /** Every issuer name a resolution has to parse does parse: the signer info's and that
      of every decoded certificate. */
  predicate IssuersParse(dec: Decoders, np: NameParsers, sd: SignedData, si: SignerInfo) {
    && Parses(np, si.issuer)
    && sd.certificates.Some?
    && forall k :: 0 <= k < |sd.certificates.value| && dec.CertificateEntry(sd.certificates.value[k]).Decoded?
         ==> Parses(np, dec.CertificateEntry(sd.certificates.value[k]).value.issuer)
  }

  /** Resolution of a constructed wrapper whose lone SignerInfo decodes to si and whose
      certificate set decodes: if some issuer name does not parse the call throws;
      otherwise, with d the certificates si designates (in order, with repetitions), no
      d is "Signer cert not found", one is the answer, and more is "Expected a single
      signer cert but found |d|". */
  lemma SignerCertResolution(dec: Decoders, np: NameParsers, p: Pkcs7, si: SignerInfo)
    requires HasOneRawSignerInfo(p.sd)
    requires dec.signerInfo(p.sd.signerInfos.value[0]) == Some(si)
    requires SomeCertificateDecodes(dec, p.sd)
    ensures CollectCerts(dec, p.sd.certificates.value).Success?
    ensures !IssuersParse(dec, np, p.sd, si) ==> GetSignerCert(dec, np, p) == Failure(LibraryFailure)
    ensures IssuersParse(dec, np, p.sd, si) ==>
      var d := Designated(np, si, CollectCerts(dec, p.sd.certificates.value).value);
      && (|d| == 0 ==> GetSignerCert(dec, np, p) == Failure(SignerCertNotFound))
      && (|d| == 1 ==> GetSignerCert(dec, np, p) == Success(d[0]))
      && (|d| > 1 ==> GetSignerCert(dec, np, p) == Failure(MultipleSignerCerts(|d|)))
  {
    var certs := LoneSignerInfoMatch(dec, np, p.sd, si);
    IssuersParseAllPairs(dec, np, p.sd, si, certs);
  }

  /** With a lone SignerInfo decoding to si, resolution is the inner loop for si over the
      decoded certificates, and at least one certificate decodes. */
  lemma LoneSignerInfoMatch(dec: Decoders, np: NameParsers, sd: SignedData, si: SignerInfo) returns (certs: seq<Certificate>)
    requires HasOneRawSignerInfo(sd)
    requires dec.signerInfo(sd.signerInfos.value[0]) == Some(si)
    requires SomeCertificateDecodes(dec, sd)
    ensures CollectCerts(dec, sd.certificates.value) == Success(certs) && |certs| > 0
    ensures GetSignerCerts(dec, np, Some(sd)) == MatchSignerInfos(np, [si], certs)
  {
    certs := CollectCerts(dec, sd.certificates.value).value;
    CollectCertsContents(dec, sd.certificates.value);
    Seqs.FilterMapSingle(sd.signerInfos.value[0], dec.signerInfo);
    assert sd.signerInfos.value == [sd.signerInfos.value[0]];
  }

  /** Over decoded certificates, every issuer parsing is every (si, certificate) pair
      parsing. */
  lemma IssuersParseAllPairs(dec: Decoders, np: NameParsers, sd: SignedData, si: SignerInfo, certs: seq<Certificate>)
    requires sd.certificates.Some? && CollectCerts(dec, sd.certificates.value) == Success(certs) && |certs| > 0
    ensures IssuersParse(dec, np, sd, si) <==> AllPairsParse(np, si, certs)
  {
    var entries := sd.certificates.value;
    CollectCertsContents(dec, entries);
    if IssuersParse(dec, np, sd, si) {
      forall j | 0 <= j < |certs|
        ensures PairParses(np, si, certs[j])
      {
        var k :| 0 <= k < |entries| && dec.CertificateEntry(entries[k]) == Decoded(certs[j]);
      }
    } else if Parses(np, si.issuer) {
      var k :| 0 <= k < |entries| && dec.CertificateEntry(entries[k]).Decoded?
                && !Parses(np, dec.CertificateEntry(entries[k]).value.issuer);
      var c := dec.CertificateEntry(entries[k]).value;
      assert c in certs;
      var j :| 0 <= j < |certs| && certs[j] == c;
      assert !PairParses(np, si, certs[j]);
    } else {
      assert !PairParses(np, si, certs[0]);
    }
  }

  /** The size gate counts raw entries: a lone SignerInfo that does not decode passes
      construction and surfaces only at resolution, as "signerInfo not found". */
  lemma LoneSignerInfoUndecodable(dec: Decoders, np: NameParsers, p: Pkcs7)
    requires HasOneRawSignerInfo(p.sd)
    requires dec.signerInfo(p.sd.signerInfos.value[0]).None?
    requires SomeCertificateDecodes(dec, p.sd)
    ensures GetSignerCert(dec, np, p) == Failure(SignerInfoNotFound)
    ensures GetSignerCn(dec, np, p).None?
  {
  }
}
