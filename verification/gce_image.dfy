/**
 The provider's own image record, as the Compute Engine API returns it:
 only the fields the conversion to a portable image reads, plus the
 deprecation record that may accompany it.
 */
module GceImages {
  import opened Optional

  /** Lifecycle stage of a deprecated image. */
  datatype DeprecationState = DEPRECATED | OBSOLETE | DELETED

  /** The enum constant's name, as Java's `Enum.name()` spells it. */
  function StateName(s: DeprecationState): string
  {
    match s
    case DEPRECATED => "DEPRECATED"
    case OBSOLETE => "OBSOLETE"
    case DELETED => "DELETED"
  }

  /** Distinct states have distinct names (their lengths already differ). */
  lemma StateNamesDistinct(a: DeprecationState, b: DeprecationState)
    ensures StateName(a) == StateName(b) ==> a == b
  {
    assert |StateName(DEPRECATED)| == 10;
    assert |StateName(OBSOLETE)| == 8;
    assert |StateName(DELETED)| == 7;
  }

  /** The deprecation status attached to an image; only its state is read by the conversion. */
  datatype Deprecation = Deprecation(state: DeprecationState)

  /**
   A provider image. `selfLink` is the image's URI and its stable identity;
   `id` is the provider's numeric identifier, kept as text.
   */
  datatype Image = Image(
    id: string,
    selfLink: string,
    name: string,
    description: Option<string>,
    deprecated: Option<Deprecation>)
}
