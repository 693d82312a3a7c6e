/** The errors a `Version` initializer can throw, and their descriptions
    (Sources/SwiftUtilities/Version/VersionError.swift). */
module VersionErrors {
  import opened Wrappers

  /** The five cases of the error enum; the order follows the declaration. */
  datatype VersionError =
    | VersionValidationError
    | MajorValidationError
    | MinorValidationError
    | PatchValidationError
    | FormatError

  /** Every error kind, as a set. */
  function AllKinds(): set<VersionError>
  {
    {VersionValidationError, MajorValidationError, MinorValidationError,
     PatchValidationError, FormatError}
  }

  /** `errorDescription`: declared as an optional string, yet every case
      supplies a message. */
  function ErrorDescription(e: VersionError): (r: Option<string>)
    ensures r.Some? && |r.value| > 0
  {
    match e
    case VersionValidationError => Some("Version must be 0 or positive.")
    case MajorValidationError => Some("Major version must be 0 or a positive integer.")
    case MinorValidationError => Some("Minor version must be 0 or a positive integer.")
    case PatchValidationError => Some("Patch version must be 0 or a positive integer.")
    case FormatError => Some("Invalid string format.")
  }

  /** The enum has exactly five cases. */
  lemma ExactlyFiveKinds(e: VersionError)
    ensures e in AllKinds()
    ensures |AllKinds()| == 5
  {
  }

  /** Each kind is recognisable by its message alone: the description map is
      injective. */
  lemma DescriptionsDistinct(a: VersionError, b: VersionError)
    ensures ErrorDescription(a) == ErrorDescription(b) <==> a == b
  {
  }

  /** The two messages callers see most often. */
  lemma KnownDescriptions()
    ensures ErrorDescription(FormatError) == Some("Invalid string format.")
    ensures ErrorDescription(VersionValidationError) == Some("Version must be 0 or positive.")
  {
  }
}
