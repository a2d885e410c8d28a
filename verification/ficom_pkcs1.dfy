/** The PKCS#1 signature wrapper: a bare signature value travelling with the signer's
    certificate. There is nothing to match; the certificate is decoded directly. */
module FiComPkcs1 {
  import opened Outcome
  import opened Octets
  import opened Failures
  import opened Asn1
  import opened Names
  import Base64
  import CommonName

  /** The PKCS1 element of a signature response: the signature value and the DER
      encoding of the signer's certificate. */
  datatype Pkcs1 = Pkcs1(signatureValue: Bytes, x509Certificate: Bytes)

  /** A constructed wrapper. */
  datatype Pkcs1Signature = Pkcs1Signature(pkcs1: Pkcs1)

  /** The constructor: rejects null and otherwise keeps its input unchanged. */
  function New(p: Option<Pkcs1>): (r: Result<Pkcs1Signature, Error>)
    ensures r.Success? <==> p.Some?
    ensures r.Success? ==> r.value.pkcs1 == p.value
    ensures r.Failure? ==> r.error == NullInput
  {
    match p
    case None => Failure(NullInput)
    case Some(v) => Success(Pkcs1Signature(v))
  }

  /** getMssSignatureValue: the padded Base64 text of the signature value. It decodes back
      to exactly the signature bytes, is 4 * ceil(n / 3) characters long for n bytes, and
      uses alphabet characters followed by the padding only. */
  function GetMssSignatureValue(w: Pkcs1Signature): (s: string)
    ensures Base64.Decode(s) == Some(w.pkcs1.signatureValue)
    ensures |s| == 4 * ((|w.pkcs1.signatureValue| + 2) / 3)
    ensures forall i :: 0 <= i < |s| ==> Base64.IsAlphabetChar(s[i]) || s[i] == '='
  {
    Base64.DecodeEncode(w.pkcs1.signatureValue);
    Base64.EncodeAlphabet(w.pkcs1.signatureValue);
    Base64.EncodeLength(w.pkcs1.signatureValue);
    Base64.Encode(w.pkcs1.signatureValue)
  }

  /** getSignerCert: the embedded certificate decoded as is; a decoding failure propagates. */
  function GetSignerCert(dec: Decoders, w: Pkcs1Signature): (r: Result<Certificate, Error>)
    ensures r.Success? <==> dec.x509(w.pkcs1.x509Certificate).Some?
    ensures r.Success? ==> dec.x509(w.pkcs1.x509Certificate) == Some(r.value)
    ensures r.Failure? ==> r.error == LibraryFailure
  {
    match dec.x509(w.pkcs1.x509Certificate)
    case None => Failure(LibraryFailure)
    case Some(cert) => Success(cert)
  }

  /** getSignerCn: never fails; None when the certificate does not decode, its subject
      does not parse or has no RDN of type exactly "CN", and otherwise the value of the
      last such RDN. */
  function GetSignerCn(dec: Decoders, np: NameParsers, w: Pkcs1Signature): (r: Option<string>)
    ensures r.Some? <==> GetSignerCert(dec, w).Success? && CommonName.HasCn(np, GetSignerCert(dec, w).value.subject)
    ensures r.Some? ==> CommonName.IsLastCnOf(np, GetSignerCert(dec, w).value.subject, r.value)
  {
    match GetSignerCert(dec, w)
    case Failure(_) => None
    case Success(cert) => CommonName.SubjectCn(np, cert.subject)
  }
}
