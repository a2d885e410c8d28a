# Laverca FiCom signature wrappers, modelled in Dafny

This project models the two signature wrappers of the Laverca mobile-signature client:

- **FiComPkcs7** wraps a PKCS#7 SignedData (RFC 2315, section 9.1). It is built from a
  ContentInfo of type id-signedData, `1.2.840.113549.1.7.2` (section 14 of RFC 2315), and
  holds only the SignedData inside it; the ContentInfo is dropped after the type check.
  - The constructor accepts only a SignedData whose SignerInfo set has exactly one entry.
  - `getSignerCerts` compares the IssuerAndSerialNumber of every SignerInfo with the
    issuer and serial of every embedded certificate. The comparison covers every pair and
    never exits early.
  - `getSignerCert` demands exactly one match.
  - `getSignerCn` reads the value of a "CN" attribute from the subject of that
    certificate.
- **FiComPkcs1** wraps a bare signature value together with the DER encoding of the
  signer's certificate.
  - `getMssSignatureValue` returns the padded Base64 text of the signature value
    (RFC 4648, section 4).
  - `getSignerCert` decodes the certificate.
  - `getSignerCn` applies the same CN rule as FiComPkcs7.

How the model is built:

- Everything is a pure function over immutable datatypes.
- A Java exception is a `Failure` of `Outcome.Result`. A Java `null` is `Outcome.None`.
- The library code the wrappers call is passed in as function values:
  - the BouncyCastle ASN.1 and certificate decoding and `X509Util` go in `Asn1.Decoders`;
  - `X509Name` and `LdapName` parsing go in `Names.NameParsers`.
  
  Every property below therefore holds for all decoders and parsers.
- `Failures.Error` names each exception the code raises:
  - the wrappers' own `IllegalArgumentException`s are `NullInput`, `NotPkcs7Signature` and
    `NotOneSignerInfo` (`Error.IsOwnIllegalArgument`);
  - the `FiComException`s are `CertificatesNotFound`, `SignerInfoNotFound`,
    `SignerCertNotFound` and `MultipleSignerCerts(n)`;
  - anything raised inside library code is `LibraryFailure`.

Modules:

- `Outcome`, `Failures`, `Octets`: the result and option types, the error values, and bytes.
- `Seqs`: the keep-what-decodes loop (`FilterMap`).
- `Decimal`: the decimal string of an integer (`BigInteger.toString`), with a parser and
  a proof that it is injective.
- `Base64`: a padded encoder and a strict decoder, with both round trips proved.
- `Asn1`: the parsed views of ContentInfo, SignedData, SignerInfo and certificates.
- `Names`: distinguished names as attribute lists, and order-insensitive equivalence.
- `CommonName`: the CN rule.
- `FiComPkcs7`, `FiComPkcs1`: the two wrappers.

Where the code and its documentation differ, the model follows the code:

- **Which CN is returned.** The CN loop (FiComPkcs7.java:111-115, FiComPkcs1.java:99-103)
  overwrites its answer at every RDN whose type is exactly `"CN"`. The value returned is
  therefore the *last* such RDN in `getRdns()` order. The type comparison is
  case-sensitive.
- **Which certificate failures are skipped.** The certificate loop (FiComPkcs7.java:241-250)
  catches only `IOException`. A failure it does not catch, such as the `DERSequence` cast
  or an unchecked decoding error, aborts `readCerts`. The model therefore has three
  per-entry outcomes: `Decoded`, `Dropped` and `Raised`. The loop body
  (`Asn1.Decoders.CertificateEntry`) is built from the cast and re-encoding (`reencode`)
  and from X.509 decoding (`x509`, the same decoder FiComPkcs1 uses). Only the
  re-encoding can give `Dropped`.
- **An absent certificate set.** The code throws a `NullPointerException`
  (FiComPkcs7.java:239-240) rather than reporting "certificates not found".
- **Unparseable issuer names.** `dnsEqual` propagates the parse failure. It does not
  answer false.
- **What the constructor counts.** Its Javadoc speaks of "signer certificates", but the
  code (FiComPkcs7.java:71) counts raw SignerInfo entries. A lone entry that does not
  decode passes construction and fails only at resolution (`LoneSignerInfoUndecodable`).

## Model

| member | source | states |
|---|---|---|
| FiComPkcs7.BytesToPkcs7SignedData | src/core/fi/laverca/ficom/FiComPkcs7.java:132-160 | "null bytes" is raised exactly for null input; a ContentInfo or SignedData decoding failure is a library failure. "not a pkcs7 signature" is raised exactly when the first object cannot be read or the ContentInfo's type is not id-signedData. It succeeds exactly when the object is read, viewed as a ContentInfo of type signedData, and its content decodes as a SignedData; the result is that SignedData. |
| FiComPkcs7.New | src/core/fi/laverca/ficom/FiComPkcs7.java:64-74 | construction succeeds exactly when the bytes decode to a SignedData with exactly one raw SignerInfo entry, and then keeps that SignedData. Decoding errors pass through unchanged. Any other count of SignerInfo entries is "exactly one SignerInfo". |
| FiComPkcs7.CollectCerts | src/core/fi/laverca/ficom/FiComPkcs7.java:237-252 | the loop fails exactly when some entry raises an uncaught failure. It then reports a library failure. Otherwise it returns at most one certificate per entry. |
| FiComPkcs7.CollectCertsContents | src/core/fi/laverca/ficom/FiComPkcs7.java:241-250 | every returned certificate was decoded from some entry, and every decoded certificate is returned. The result is empty exactly when every entry was skipped. |
| FiComPkcs7.UndecodableCertificateRaises | src/core/fi/laverca/ficom/FiComPkcs7.java:243-249 | an entry that re-encodes but fails X.509 decoding is not skipped: the IOException catch does not cover it, so the certificate loop fails. |
| FiComPkcs7.CollectCertsAppend | src/core/fi/laverca/ficom/FiComPkcs7.java:241-250 | the loop keeps enumeration order. On concatenated entry lists it returns the concatenated results, and it fails when either part fails. |
| FiComPkcs7.ReadCerts | src/core/fi/laverca/ficom/FiComPkcs7.java:232-253 | null SignedData gives null. An absent certificate set throws. Otherwise the result is the certificate loop over the set. Every failure is a library failure, never "certificates not found". |
| FiComPkcs7.ReadSignerInfos | src/core/fi/laverca/ficom/FiComPkcs7.java:260-280 | null SignedData gives null. An absent SignerInfo set throws. Otherwise the result is the entries that decode, in order, with every decoding failure skipped. |
| Seqs.FilterMap | src/core/fi/laverca/ficom/FiComPkcs7.java:267-277 | the kept values are exactly the values that decoded. There are never more of them than entries. The result is empty iff no entry decodes. |
| Seqs.FilterMapAppend | src/core/fi/laverca/ficom/FiComPkcs7.java:268-277 | the SignerInfo loop keeps enumeration order: it distributes over concatenation. |
| FiComPkcs7.ReadSerial | src/core/fi/laverca/ficom/FiComPkcs7.java:287-296 | null gives null. Otherwise the result is a canonical decimal string (digits only, no leading zero) that parses back to the unsigned serial. |
| Decimal.CanonicalUnique | src/core/fi/laverca/ficom/FiComPkcs7.java:295 | two canonical decimal strings parse to the same integer iff they are the same string, so the serial string is unique. |
| FiComPkcs7.ReadIssuer | src/core/fi/laverca/ficom/FiComPkcs7.java:303-312 | null gives null. Otherwise the result is the string form of the issuer name. |
| Decimal.ParseRender | src/core/fi/laverca/ficom/FiComPkcs7.java:295 | the decimal string of any integer parses back to that integer. |
| Decimal.RenderInjective | src/core/fi/laverca/ficom/FiComPkcs7.java:204-209 | two serials have equal decimal strings iff they are equal integers. The string comparison in the match loop is therefore integer equality. |
| FiComPkcs7.DnsEqual | src/core/fi/laverca/ficom/FiComPkcs7.java:323-332 | it is false when either name is null. It throws exactly when a non-null name does not parse. It is true exactly when both names parse to equivalent attribute collections. |
| FiComPkcs7.DnsEqualIgnoresOrder | src/core/fi/laverca/ficom/FiComPkcs7.java:314-331 | two DN strings that parse to reorderings of one another compare alike against every third name. |
| FiComPkcs7.DnsEqualSymmetric | src/core/fi/laverca/ficom/FiComPkcs7.java:323-332 | swapping the two names changes neither the answer nor whether the call throws. |
| Names.KeysPermutation | src/core/fi/laverca/ficom/FiComPkcs7.java:331 | reordering a name's attributes reorders its comparison keys and changes nothing else. |
| Names.EquivalentIgnoresOrder | src/core/fi/laverca/ficom/FiComPkcs7.java:331 | name equivalence is unchanged when either name's attributes are reordered. |
| FiComPkcs7.PairMatches | src/core/fi/laverca/ficom/FiComPkcs7.java:203-209 | one comparison throws exactly when one of the two issuer names does not parse. Otherwise it matches iff the SignerInfo designates the certificate: same issuer name and equal serial. |
| FiComPkcs7.DesignatedSelects | src/core/fi/laverca/ficom/FiComPkcs7.java:202-210 | a certificate is selected for a SignerInfo iff it is one of the certificates and the SignerInfo designates it. |
| FiComPkcs7.DesignatedMultiplicity | src/core/fi/laverca/ficom/FiComPkcs7.java:202-210 | a designated certificate is kept as often as it occurs. Nothing else is kept. |
| FiComPkcs7.MatchCerts | src/core/fi/laverca/ficom/FiComPkcs7.java:202-219 | the inner loop fails exactly when some pair does not parse. Otherwise it equals the reference selection. |
| FiComPkcs7.DesignatingCount | src/core/fi/laverca/ficom/FiComPkcs7.java:201-220 | the count is positive iff some SignerInfo designates the certificate, and it never exceeds the number of SignerInfos. |
| FiComPkcs7.MatchSignerInfos | src/core/fi/laverca/ficom/FiComPkcs7.java:201-220 | the nested loop fails exactly when some (SignerInfo, certificate) pair does not parse. With one SignerInfo its result is the reference selection. |
| FiComPkcs7.MatchSignerInfosMultiplicity | src/core/fi/laverca/ficom/FiComPkcs7.java:201-220 | there is no early exit and no deduplication. Each certificate is listed (number of SignerInfos designating it) times (its multiplicity) times. |
| FiComPkcs7.MatchSignerInfosAppend | src/core/fi/laverca/ficom/FiComPkcs7.java:201-220 | output is ordered by SignerInfo first: the matches of earlier SignerInfos come first. |
| FiComPkcs7.MatchedCertificatesAreDesignated | src/core/fi/laverca/ficom/FiComPkcs7.java:209-210 | every matched certificate is one of the certificates and is designated by some SignerInfo. |
| FiComPkcs7.GetSignerCerts | src/core/fi/laverca/ficom/FiComPkcs7.java:169-225 | null input is rejected, and only null input is. "certificates not found" is raised exactly when the certificate set is present and every entry is skipped. "signerInfo not found" is raised exactly when some certificate decodes, none raises, and no SignerInfo decodes. No other error is possible except library failures. |
| FiComPkcs7.GetSignerCertsMatches | src/core/fi/laverca/ficom/FiComPkcs7.java:185-220 | when some certificate decodes, none raises, and some SignerInfo decodes, the result is exactly the nested match over the decoded SignerInfos and the decoded certificates: it succeeds or fails as that match does, for any number of SignerInfos. |
| FiComPkcs7.GetSignerCertsContents | src/core/fi/laverca/ficom/FiComPkcs7.java:185-224 | every returned certificate was decoded from the certificate set and is designated by a SignerInfo decoded from the SignerInfo set. |
| FiComPkcs7.GetSignerCert | src/core/fi/laverca/ficom/FiComPkcs7.java:84-95 | it succeeds iff exactly one certificate is found, and returns that certificate. None found is "Signer cert not found". n > 1 found is "found n". Earlier errors pass through, so every failure is a FiComException or a library failure, never one of the wrapper's own IllegalArgumentExceptions. An issuer that X509Name rejects is a library failure, which Java raises as an IllegalArgumentException. |
| FiComPkcs7.SignerCertResolution | src/core/fi/laverca/ficom/FiComPkcs7.java:84-95 | for the lone SignerInfo si, let d be the certificates si designates. If no issuer name fails to parse: d empty is "not found", one certificate in d is the answer, and more than one is "found" with their count. Otherwise the call throws. |
| FiComPkcs7.LoneSignerInfoUndecodable | src/core/fi/laverca/ficom/FiComPkcs7.java:193-197 | a lone SignerInfo entry that does not decode passes construction, then fails resolution with "signerInfo not found", and the CN is null. |
| FiComPkcs7.GetSignerCn | src/core/fi/laverca/ficom/FiComPkcs7.java:102-125 | it never throws. The answer is non-null iff resolution succeeds and the subject parses with a CN. It is then the value of the last RDN of type "CN". |
| CommonName.LastCn | src/core/fi/laverca/ficom/FiComPkcs7.java:107-115 | there is no answer iff no RDN has type "CN". Otherwise the answer is the value of a CN that no later RDN overrides. |
| CommonName.LastCnAppend | src/core/fi/laverca/ficom/FiComPkcs7.java:111-115 | the loop overwrites: a CN in a later part of the RDN list hides every earlier one. |
| CommonName.LastCnExamples | src/core/fi/laverca/ficom/FiComPkcs7.java:112 | the type test is exact and case-sensitive, and the last CN wins. |
| CommonName.SubjectCn | src/core/fi/laverca/ficom/FiComPkcs7.java:105-120 | the answer is non-null iff the subject parses and names a CN, and is then the last CN's value. |
| FiComPkcs1.New | src/core/fi/laverca/ficom/FiComPkcs1.java:50-57 | construction rejects null and otherwise keeps its input. |
| FiComPkcs1.GetMssSignatureValue | src/core/fi/laverca/ficom/FiComPkcs1.java:63-71 | the text Base64-decodes to exactly the signature bytes. It is 4·⌈n/3⌉ characters long and uses only alphabet characters and '='. |
| Base64.EncodeLength | src/core/fi/laverca/ficom/FiComPkcs1.java:66 | the encoding of n bytes has 4·⌈n/3⌉ characters. |
| Base64.EncodeAlphabet | src/core/fi/laverca/ficom/FiComPkcs1.java:66 | the encoding uses alphabet characters, followed by exactly (3 − n mod 3) mod 3 '=' characters. |
| Base64.DecodeChar | src/core/fi/laverca/ficom/FiComPkcs1.java:66 | a character decodes iff it is in the alphabet, and encoding its value gives it back. |
| Base64.DecodeEncode | src/core/fi/laverca/ficom/FiComPkcs1.java:66 | decoding the encoding of any bytes gives those bytes. |
| Base64.EncodeDecode | src/core/fi/laverca/ficom/FiComPkcs1.java:66 | any text the strict decoder accepts is the encoding of what it decodes to. |
| FiComPkcs1.GetSignerCert | src/core/fi/laverca/ficom/FiComPkcs1.java:80-82 | it succeeds iff the embedded certificate bytes decode, and then returns the decoded certificate. |
| FiComPkcs1.GetSignerCn | src/core/fi/laverca/ficom/FiComPkcs1.java:90-113 | it never throws. The answer is non-null iff the certificate decodes and its subject parses with a CN. It is then the value of the last RDN of type "CN". |

## Left out

- DER and ASN.1 decoding are abstract: `ASN1InputStream.readObject`, `ContentInfo.getInstance`, `SignedData.getInstance` and `SignerInfo.getInstance`. So are X.509 certificate decoding (`X509Util` is not part of this model), `X509Name` parsing and `LdapName` parsing. Each is a function value in `Asn1.Decoders` or `Names.NameParsers`, and each property holds for every such function.
- The string forms of names (`X500Name.toString`, `getIssuerDN().toString()`, `getSubjectX500Principal().getName()`) are modelled as strings stored in the decoded values.
- FiComPkcs7.DnsEqual: `X509Name.equals(other, false)` is abstracted as multiset equality of (OID, canonical value) pairs. The library's own pairwise search and its string canonicalisation are library code outside this model.
- FiComPkcs7.CollectCerts: the model does not tell apart the failures the loop does not catch (the `DERSequence` cast, the unchecked failures of certificate decoding): all of them are one outcome, `Raised`. `Dropped` stands only for the `IOException` of `getEncoded` (FiComPkcs7.java:244), the one call in the loop that declares it; certificate decoding (FiComPkcs1.java:80-82) declares no checked exception, so a certificate that fails to decode is never skipped (`UndecodableCertificateRaises`).
- A certificate decoder that returns null instead of throwing is not modelled.
- All exceptions raised by library code become the single error `LibraryFailure`. The model keeps no exception class or message.
- Logging (`log.debug`, `log.trace`, `log.warn`, `log.error`) is omitted. It has no effect on results.
- FiComPkcs1.GetMssSignatureValue: the `UnsupportedEncodingException` branch is not modelled. Every Java platform supports US-ASCII, so the branch cannot be taken and the result is never null.
- A `PKCS1` object whose own signature value or certificate field is null is not modelled. Those fields are plain byte sequences here.
- The SignedData fields the code never reads are not modelled: version, digest algorithms, encapsulated content and CRLs.
- `getSignerCn` also catches `Error`s, such as out-of-memory, through `catch (Throwable)`. Resource exhaustion is not modelled.
- Signature verification, the web-service types (`MSS_ReceiptType`) and the sample application (`SignText`) are not part of this model. None of them contributes to signer resolution.
