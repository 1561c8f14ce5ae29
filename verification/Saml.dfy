/** The values the protocol roles exchange: errors, endpoints, descriptors, identifiers. */
module Saml {
  import opened Wrappers
  import opened Instants

  /** The error variants the modelled code returns, without their message text. */
  datatype Error =
    | InvalidConfiguration | XmlParse | XmlEmit
    | IssuerMismatch | DestinationMismatch | ResponseBindingMismatch | IdpTrustRootMismatch
    | StatusNotSuccess | InResponseToMismatch | UnsolicitedNotAllowed | SignatureVerification
    | NotYetValid | Expired | AudienceMismatch | RecipientMismatch | HolderOfKeyConfirmation
    | AuthnContextDowngrade | UnsupportedNameIdPolicy | NameIdFormatMismatch | NameIdSpQualifierMismatch
    | OneTimeUseUnenforceable | ReplayCacheFull | AssertionReplay | ProxyTransactionReplay
    | ArtifactResolveReplay | MalformedArtifact | SignatureMissing | ArtifactSpTrustRootMismatch
    | UpstreamTrustRootMismatch | ForeignProxyFlow | SpKeyMaterialMismatch | UnregisteredAcs
    | ArtifactTransactionRequired | UnsupportedByPeer | DecryptFailed | IssuanceFailed

  /** A SHA-256 certificate fingerprint, ordered as the big-endian number its bytes spell. */
  type Fingerprint = int

  datatype Binding = HttpRedirect | HttpPost | HttpArtifact | Soap

  datatype Endpoint = Endpoint(url: string, binding: Binding, index: Option<nat>, isDefault: bool)

  datatype NameIdFormat =
    | Unspecified | EmailAddress | X509SubjectName | WindowsDomainQualifiedName
    | Kerberos | Entity | Persistent | Transient | Custom(uri: string)

  datatype NameId = NameId(value: string, format: NameIdFormat, nameQualifier: Option<string>,
                           spNameQualifier: Option<string>, spProvidedId: Option<string>)

  datatype Attribute = Attribute(name: string, values: seq<string>)

  datatype IdpDescriptor = IdpDescriptor(entityId: string, signingCerts: seq<Fingerprint>,
                                         artifactResolutionEndpoints: seq<Endpoint>)

  datatype SpDescriptor = SpDescriptor(entityId: string, assertionConsumerServices: seq<Endpoint>,
                                       encryptionCerts: seq<Fingerprint>, signingCerts: seq<Fingerprint>)

  /** The certificates of `current` that are also in `pinned` (`retain`). */
  function Intersection(current: seq<Fingerprint>, pinned: seq<Fingerprint>): (r: seq<Fingerprint>)
    ensures forall f :: f in r <==> f in current && f in pinned
  {
    if current == [] then []
    else (if current[0] in pinned then [current[0]] else []) + Intersection(current[1..], pinned)
  }

  /** A persistent identifier must name the recipient or nobody as its qualifier. */
  function EnsureSpQualifier(nameId: NameId, spEntityId: string): Result<(), Error> {
    if nameId.format.Persistent? && nameId.spNameQualifier.Some? && nameId.spNameQualifier.value != spEntityId
    then Err(NameIdSpQualifierMismatch)
    else Ok(())
  }
}
