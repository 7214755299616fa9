/**
 The portable, provider-independent description of an image that the
 compute abstraction works with: its identity, lifecycle status, free-form
 metadata, version and operating system.
 */
module ComputeImages {
  import opened Optional
  import opened OsFamilies

  /** Lifecycle status of a portable image. */
  datatype Status = AVAILABLE | PENDING | DELETED | ERROR | UNRECOGNIZED

  /** What is known of the operating system an image boots. */
  datatype OperatingSystem = OperatingSystem(
    family: OsFamily,
    version: Option<string>,
    description: string,
    is64Bit: bool)

  /**
   A portable image. `id` and `uri` identify it across providers,
   `providerId` is the provider's own identifier, and `version` is the
   image's own build label, when one is known.
   */
  datatype Image = Image(
    id: string,
    providerId: string,
    name: string,
    description: Option<string>,
    status: Status,
    uri: string,
    userMetadata: map<string, string>,
    version: Option<string>,
    operatingSystem: OperatingSystem)
}
