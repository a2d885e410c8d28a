/** The decoded PKCS#7 and X.509 structures the signature wrappers read, and the library
    decoders that produce them. DER decoding and X.509 parsing are library code outside
    this model, so each decoder is a function value supplied by the caller; every model
    function is then a statement about all decoders at once. */
module Asn1 {
  import opened Outcome
  import opened Octets

  /** An object identifier as its list of arcs. */
  type Oid = seq<nat>

  /** id-signedData, 1.2.840.113549.1.7.2 (section 14 of RFC 2315). */
  const SignedDataOid: Oid := [1, 2, 840, 113549, 1, 7, 2]

  /** ContentInfo (section 7 of RFC 2315); the content is kept as its DER encoding. */
  datatype ContentInfo = ContentInfo(contentType: Oid, content: Bytes)

  /** The two sets of a SignedData (section 9.1 of RFC 2315) the wrappers look at, each
      entry still undecoded and listed in enumeration order. `None` is a set the
      structure does not carry (the certificate set is OPTIONAL). */
  datatype SignedData = SignedData(certificates: Option<seq<Bytes>>, signerInfos: Option<seq<Bytes>>)

  /** A decoded SignerInfo, reduced to its IssuerAndSerialNumber (section 6.7 of RFC 2315):
      the issuer name as the library renders it, and the serial number's unsigned value. */
  datatype SignerInfo = SignerInfo(issuer: string, serial: nat)

  /** A decoded X.509 certificate: the issuer DN as rendered by its string form, the
      signed serial number, the RFC 2253 rendering of the subject DN, and its encoding. */
  datatype Certificate = Certificate(issuer: string, serial: int, subject: string, encoded: Bytes)

  /** What one pass of the certificate loop does with one entry: decodes it, fails with
      an IOException that the loop catches, or fails with an unchecked exception (the
      entry is not a DER sequence, or X.509 decoding rejects it) that the loop lets out. */
  datatype EntryOutcome<+T> = Decoded(value: T) | Dropped | Raised

  /** The library decoders, each a total function whose failure is a value. */
  datatype Decoders = Decoders(
    /** ASN1InputStream.readObject; None is an IOException. */
    readObject: Bytes -> Option<Bytes>,
    /** ContentInfo.getInstance; None is the exception it throws on a foreign object. */
    contentInfo: Bytes -> Option<ContentInfo>,
    /** SignedData.getInstance; None is the exception it throws. */
    signedData: Bytes -> Option<SignedData>,
    /** SignerInfo.getInstance; None is the RuntimeException it throws. */
    signerInfo: Bytes -> Option<SignerInfo>,
    /** The cast of a certificate-set entry to DERSequence followed by getEncoded:
        Decoded(der), Dropped for the IOException getEncoded declares, Raised for a
        failed cast. */
    reencode: Bytes -> EntryOutcome<Bytes>,
    /** X509Util.DERtoX509Certificate; None is a failure, which propagates. */
    x509: Bytes -> Option<Certificate>
  )
  {
    /** The body of the certificate loop: re-encode the entry, then decode it as X.509.
        Only the re-encoding's IOException is caught; an X.509 failure escapes. */
    function CertificateEntry(entry: Bytes): EntryOutcome<Certificate> {
      match reencode(entry)
      case Raised => Raised
      case Dropped => Dropped
      case Decoded(der) =>
        match x509(der)
        case None => Raised
        case Some(c) => Decoded(c)
    }
  }
}
