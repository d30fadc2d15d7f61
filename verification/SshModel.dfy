/** SSH keys, certificates and MACs, symbolically: a key pair is named by the fingerprint of its
    public half, a signature names its signer and the body it covers, and a MAC names its text. */
module SshModel {
  import opened Wrappers
  import opened Words

  type KeyName = string

  datatype PublicKey = PublicKey(name: KeyName, comment: string)

  /** A private key in memory; one backed by a security key may fail to sign. */
  datatype PrivateKey = PrivateKey(pubkey: PublicKey, comment: string, signs: bool)

  datatype CertType = User | Host

  /** A tag under the server's HMAC key, or bytes that are no such tag. */
  datatype Tag = Mac(text: string) | Noise(bytes: string)

  /** The key id of a certificate: the hexadecimal form of a tag, or other text. */
  datatype KeyId = Hex(tag: Tag) | Plain(text: string)

  datatype CertBody = CertBody(
    key: KeyName,
    certType: CertType,
    signatureKey: KeyName,
    serial: u64,
    keyId: KeyId,
    principals: seq<string>,
    validAfter: u64,
    validBefore: u64,
    criticalOptions: map<string, string>,
    extensions: map<string, string>)

  datatype Signature = Made(signer: KeyName, body: CertBody) | Bogus

  datatype Certificate = Certificate(body: CertBody, signature: Signature)

  /** When SSH accepts a certificate: from its start on and before its end (PROTOCOL.certkeys of OpenSSH). */
  predicate ValidAt(body: CertBody, now: u64) {
    body.validAfter <= now < body.validBefore
  }

  predicate Verifies(cert: Certificate) {
    cert.signature == Made(cert.body.signatureKey, cert.body)
  }

  function Sign(body: CertBody, signer: KeyName): Certificate {
    Certificate(body, Made(signer, body))
  }

  /** The text of a certificate and its length, or text that is no certificate. */
  datatype CertText = Encoded(cert: Certificate, length: nat) | Garbage(length: nat)

  /** `Certificate::from_string`, which checks the signature against the embedded signing key. */
  function ParseCert(text: CertText): Option<Certificate> {
    if text.Encoded? && Verifies(text.cert) then Some(text.cert) else None
  }

  /** The parts of the SSH library left uninterpreted: any choice of them will do. */
  datatype Library = Library(
    parseKey: string -> Option<PublicKey>,
    printKey: PublicKey -> string,
    certLength: Certificate -> nat)

  function PrintCert(lib: Library, cert: Certificate): CertText {
    Encoded(cert, lib.certLength(cert))
  }

  /** Printing a public key and parsing it again yields the same key pair. */
  ghost predicate KeysReadBack(lib: Library) {
    forall k :: var parsed := lib.parseKey(lib.printKey(k)); parsed.Some? && parsed.value.name == k.name
  }
}
