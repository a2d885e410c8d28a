/** The exceptions the two signature wrappers can surface, one constructor per cause. */
module Failures {

  datatype Error =
      /** IllegalArgumentException: the input (bytes, SignedData or PKCS1 value) is null. */
    | NullInput
      /** IllegalArgumentException "not a pkcs7 signature": unreadable bytes or a content
          type other than signedData. */
    | NotPkcs7Signature
      /** IllegalArgumentException: the SignerInfo set is absent or does not hold exactly one entry. */
    | NotOneSignerInfo
      /** FiComException: no certificate of the SignedData could be decoded. */
    | CertificatesNotFound
      /** FiComException: no SignerInfo of the SignedData could be decoded. */
    | SignerInfoNotFound
      /** FiComException "Signer cert not found." */
    | SignerCertNotFound
      /** FiComException "Expected a single signer cert but found <found>." */
    | MultipleSignerCerts(found: nat)
      /** An unchecked exception raised inside library code (ASN.1 factories, a failed cast,
          a null dereference, a DN the X509Name parser rejects) that escapes uncaught. */
    | LibraryFailure
  {
    /** The IllegalArgumentExceptions the wrappers throw themselves. An X509Name parse
        failure is also an IllegalArgumentException in Java, but it is library code and
        is LibraryFailure here. */
    predicate IsOwnIllegalArgument() {
      NullInput? || NotPkcs7Signature? || NotOneSignerInfo?
    }

    predicate IsFiComException() {
      CertificatesNotFound? || SignerInfoNotFound? || SignerCertNotFound? || MultipleSignerCerts?
    }
  }
}
