# Google Compute Engine image conversion, modelled in Dafny

The Google Compute Engine provider of jclouds turns every image record the
provider API returns (`Image`: id, self link, name, description and an
optional deprecation record) into jclouds' portable image description
(`org.jclouds.compute.domain.Image`). `GoogleComputeEngineImageToImage.apply` does the
conversion:

- it copies the identity fields: the self link becomes both the id and the URI, and the provider id is the provider's own id;
- it sets the status to AVAILABLE, or to DELETED when the deprecation record says the image is deleted;
- when there is a deprecation record, it records the state's name under the metadata key `deprecatedState`;
- it reads the operating system off the image name. The name is split on `-` with Java's `String.split`:
  - with three or more pieces, the first piece names the family (looked up with `OsFamily.fromValue`; an unknown name keeps the default LINUX);
  - the middle pieces joined with `.` are the operating-system version;
  - the last piece is the image version;
  - with fewer pieces, the default operating system from `defaultOperatingSystem` is kept: 64-bit LINUX, described by the image name.

Files:

- `optional.dfy` — `Option`, for Java's nullable fields.
- `gce_image.dfy` — the provider's image record and its deprecation states.
- `compute_image.dfy` — the portable image, operating system and status.
- `os_family.dfy` — the portable operating-system families and the `fromValue` lookup.
- `java_strings.dfy` — Java's `String.split` (limit 0) and Guava's `Joiner.join`, with their round trips.
- `image_to_image.dfy` — the conversion itself, the properties relating its outputs, and worked examples.

`ImageToImage.Apply` takes the family lookup as a parameter. This keeps the
conversion's contract independent of the lookup's name table.
`ImageToImage.Convert` is the conversion with the portable lookup
`OsFamilies.FromValue`.

## Model

| member | source | states |
|---|---|---|
| ImageToImage.Apply | google-compute-engine/src/main/java/org/jclouds/googlecomputeengine/compute/functions/GoogleComputeEngineImageToImage.java:38-71 | Every image converts. Id and URI are the self link, the provider id is the image's id, name and description are copied. Status is DELETED exactly when the deprecation record's state is DELETED, otherwise AVAILABLE. Metadata is empty without a record, and otherwise maps `deprecatedState` to the state's name. The OS is 64-bit and described by the name, and its family is never UNRECOGNIZED. With fewer than three pieces, the OS is LINUX with no version and there is no image version. With three or more, the OS version is the middle pieces joined with `.`, the image version is the last piece, and the family is the lookup of the first piece, or LINUX when that is unrecognised |
| ImageToImage.DefaultOperatingSystem | google-compute-engine/src/main/java/org/jclouds/googlecomputeengine/compute/functions/GoogleComputeEngineImageToImage.java:73-75 | The default operating system is LINUX, 64-bit, with no version, and is described by the image name |
| ImageToImage.ShortNameKeepsDefault | google-compute-engine/src/main/java/org/jclouds/googlecomputeengine/compute/functions/GoogleComputeEngineImageToImage.java:56-58 | For every name of fewer than three pieces and every lookup, the converted OS is exactly the default one |
| ImageToImage.Convert | google-compute-engine/src/main/java/org/jclouds/googlecomputeengine/compute/functions/GoogleComputeEngineImageToImage.java:38-71 | The conversion with the portable lookup: the family is LINUX, or the name has three or more pieces and the family's name is the first piece upper-cased |
| ImageToImage.StatusAgreesWithMetadata | google-compute-engine/src/main/java/org/jclouds/googlecomputeengine/compute/functions/GoogleComputeEngineImageToImage.java:45-53 | The converted image is DELETED if and only if its metadata records `deprecatedState` = `DELETED`. Its metadata is empty if and only if there is no deprecation record |
| ImageToImage.OsVersionSplitsBack | google-compute-engine/src/main/java/org/jclouds/googlecomputeengine/compute/functions/GoogleComputeEngineImageToImage.java:55-67 | For a name without `.` and with three or more pieces, splitting the OS version on `.` gives back exactly the middle pieces of the name |
| ImageToImage.PiecesRecoveredFromParts | google-compute-engine/src/main/java/org/jclouds/googlecomputeengine/compute/functions/GoogleComputeEngineImageToImage.java:55-69 | For such a name, the name's pieces are the first piece, then the OS version's pieces, then the image version: the conversion loses no piece |
| ImageToImage.NameRecoveredFromParts | google-compute-engine/src/main/java/org/jclouds/googlecomputeengine/compute/functions/GoogleComputeEngineImageToImage.java:55-69 | If the name also does not end with `-`, joining those parts with `-` gives back the image name |
| ImageToImage.ConvertFamilyFromFirstPiece | google-compute-engine/src/main/java/org/jclouds/googlecomputeengine/compute/functions/GoogleComputeEngineImageToImage.java:61-64 | With the portable lookup and three or more pieces, whenever some family is named by the first piece upper-cased, the converted image has that family |
| ImageToImage.SkipThenLimit | google-compute-engine/src/main/java/org/jclouds/googlecomputeengine/compute/functions/GoogleComputeEngineImageToImage.java:66 | `limit(skip(splits, 1), size - 2)` is exactly the pieces between the first and the last |
| ImageToImage.DebianWheezyExample | google-compute-engine/src/main/java/org/jclouds/googlecomputeengine/compute/functions/GoogleComputeEngineImageToImage.java:55-69 | The image `debian-7-wheezy-v20140718` (the image the repository's tests boot) converts, with the portable lookup, to family DEBIAN, OS version `7.wheezy`, image version `v20140718`, status AVAILABLE |
| ImageToImage.TwoPieceNameExample | google-compute-engine/src/main/java/org/jclouds/googlecomputeengine/compute/functions/GoogleComputeEngineImageToImage.java:56-58 | A two-piece name such as `debian-7` keeps the default OS (64-bit LINUX, no version, described by the name) and gets no image version |
| ImageToImage.InteriorEmptyPieceParses | google-compute-engine/src/main/java/org/jclouds/googlecomputeengine/compute/functions/GoogleComputeEngineImageToImage.java:55-69 | `a--b` has three pieces, so it is parsed: the OS version is empty, the image version is `b`, and a lookup that does not recognise `a` leaves LINUX |
| ImageToImage.InteriorEmptyPieceExample | google-compute-engine/src/main/java/org/jclouds/googlecomputeengine/compute/functions/GoogleComputeEngineImageToImage.java:55-69 | With the portable lookup, `a--b` converts to family LINUX (the one-letter `a` names no family), OS version empty, image version `b` |
| JavaStrings.JavaSplit | google-compute-engine/src/main/java/org/jclouds/googlecomputeengine/compute/functions/GoogleComputeEngineImageToImage.java:55 | `String.split` returns the string whole when it has no separator. Otherwise it returns a prefix of all the pieces: only empty pieces are dropped, and the last kept piece is non-empty |
| JavaStrings.SplitAll | google-compute-engine/src/main/java/org/jclouds/googlecomputeengine/compute/functions/GoogleComputeEngineImageToImage.java:55 | Cutting at every separator always yields at least one piece |
| JavaStrings.DropTrailingEmpty | google-compute-engine/src/main/java/org/jclouds/googlecomputeengine/compute/functions/GoogleComputeEngineImageToImage.java:55 | The result is a prefix of the pieces, everything dropped is empty, and the result does not end with an empty piece |
| JavaStrings.Join | google-compute-engine/src/main/java/org/jclouds/googlecomputeengine/compute/functions/GoogleComputeEngineImageToImage.java:66 | Joining no pieces gives the empty string; joining one or more gives their characters plus exactly one separator fewer than there are pieces |
| JavaStrings.SplitJoin | google-compute-engine/src/main/java/org/jclouds/googlecomputeengine/compute/functions/GoogleComputeEngineImageToImage.java:55 | Joining all the pieces of a split with the separator gives back the string |
| JavaStrings.JoinSplit | google-compute-engine/src/main/java/org/jclouds/googlecomputeengine/compute/functions/GoogleComputeEngineImageToImage.java:66 | Splitting a join of separator-free pieces gives back exactly those pieces |
| JavaStrings.JavaSplitJoin | google-compute-engine/src/main/java/org/jclouds/googlecomputeengine/compute/functions/GoogleComputeEngineImageToImage.java:55 | For a string that is empty or does not end with the separator, `String.split` drops nothing, and joining its result gives back the string |
| JavaStrings.JavaSplitOfJoin | google-compute-engine/src/main/java/org/jclouds/googlecomputeengine/compute/functions/GoogleComputeEngineImageToImage.java:55 | `String.split` undoes a join of separator-free pieces whose last piece is non-empty (or that is a single piece) |
| JavaStrings.JavaSplitSeparatorFree | google-compute-engine/src/main/java/org/jclouds/googlecomputeengine/compute/functions/GoogleComputeEngineImageToImage.java:55 | No piece `String.split` returns contains the separator |
| JavaStrings.SplitAllSeparatorFree | google-compute-engine/src/main/java/org/jclouds/googlecomputeengine/compute/functions/GoogleComputeEngineImageToImage.java:55 | No piece of a full split contains the separator |
| JavaStrings.JavaSplitPiecesFromString | google-compute-engine/src/main/java/org/jclouds/googlecomputeengine/compute/functions/GoogleComputeEngineImageToImage.java:55 | Every character of every returned piece occurs in the split string |
| JavaStrings.MiddlePiecesSplitBack | google-compute-engine/src/main/java/org/jclouds/googlecomputeengine/compute/functions/GoogleComputeEngineImageToImage.java:55-67 | Joining the middle pieces with a separator the string does not contain can be undone by splitting on it |
| JavaStrings.JoinAppend | google-compute-engine/src/main/java/org/jclouds/googlecomputeengine/compute/functions/GoogleComputeEngineImageToImage.java:66 | Joining a concatenation of two non-empty lists puts exactly one separator at the seam |
| JavaStrings.JavaSplitOnlySeparator | google-compute-engine/src/main/java/org/jclouds/googlecomputeengine/compute/functions/GoogleComputeEngineImageToImage.java:55 | `"-".split("-")` is empty, so such a name takes the default OS |
| JavaStrings.JavaSplitTrailingEmpty | google-compute-engine/src/main/java/org/jclouds/googlecomputeengine/compute/functions/GoogleComputeEngineImageToImage.java:55 | Trailing empty pieces are dropped: `a-b--` splits to `a`, `b` |
| JavaStrings.JavaSplitLeadingEmpty | google-compute-engine/src/main/java/org/jclouds/googlecomputeengine/compute/functions/GoogleComputeEngineImageToImage.java:55 | A leading empty piece is kept: `-a` splits to ``, `a` |
| JavaStrings.JavaSplitInteriorEmpty | google-compute-engine/src/main/java/org/jclouds/googlecomputeengine/compute/functions/GoogleComputeEngineImageToImage.java:55 | An interior empty piece is kept: `a--b` splits to `a`, ``, `b` |
| OsFamilies.Lookup | google-compute-engine/src/main/java/org/jclouds/googlecomputeengine/compute/functions/GoogleComputeEngineImageToImage.java:61 | The result is UNRECOGNIZED or a listed family with the wanted name. It is UNRECOGNIZED only when no listed family has that name |
| OsFamilies.FromValue | google-compute-engine/src/main/java/org/jclouds/googlecomputeengine/compute/functions/GoogleComputeEngineImageToImage.java:61 | A recognised result's name is the upper-cased text |
| OsFamilies.AsciiUpper | google-compute-engine/src/main/java/org/jclouds/googlecomputeengine/compute/functions/GoogleComputeEngineImageToImage.java:61 | Upper-casing, as the family lookup does first, keeps the length, leaves no lower-case ASCII letter, turns each `a`..`z` into its capital and keeps every other character |
| OsFamilies.AsciiUpperIdempotent | google-compute-engine/src/main/java/org/jclouds/googlecomputeengine/compute/functions/GoogleComputeEngineImageToImage.java:61 | Upper-casing twice is the same as upper-casing once |
| OsFamilies.FromValueFindsNamedFamily | google-compute-engine/src/main/java/org/jclouds/googlecomputeengine/compute/functions/GoogleComputeEngineImageToImage.java:61-64 | Whenever the upper-cased text is a family's name, the lookup returns that family, so the converter sets it |
| OsFamilies.OneLetterIsNoFamily | google-compute-engine/src/main/java/org/jclouds/googlecomputeengine/compute/functions/GoogleComputeEngineImageToImage.java:61-64 | A one-letter first piece names no family, so the converter keeps LINUX |
| GceImages.StateNamesDistinct | google-compute-engine/src/main/java/org/jclouds/googlecomputeengine/compute/functions/GoogleComputeEngineImageToImage.java:49 | Distinct deprecation states have distinct names, so the metadata determines the state |

## Left out

- The REST interfaces, the rest of the compute-service adapter and the tests are not part of this model. Only the conversion is modelled.
- `OsFamily.fromValue` belongs to jclouds core, which is not part of this model. `OsFamilies.FromValue` models it as ASCII upper-casing followed by a match against the constants' names, with UNRECOGNIZED on no match. The conversion itself, `ImageToImage.Apply`, is proved for every lookup that returns a family.
- The image and operating-system builders are modelled as plain records. The second `providerId(image.id())` call (line 43) repeats line 41 and has no effect of its own.
- URIs are modelled as strings, and `selfLink().toString()` as the string itself.
- `split("-")` takes a regular expression. `-` is not a metacharacter outside brackets, so it is modelled as a literal one-character separator.
- A deprecation record is assumed to carry a state; a record with a null state would throw at line 49 and is not modelled. The record's other fields (the replacement image, the deprecation dates) are not modelled, because the conversion reads nothing but the state.
- The checks `splits == null` and `splits.size() == 0` at line 57 are implied by `size() < 3` and are not modelled separately.
- Statuses other than AVAILABLE and DELETED, the image's `userMetadata` beyond `deprecatedState`, and builder defaults for fields the conversion does not set (OS name, arch) are not modelled.
- ImageToImage.Skip and ImageToImage.Limit (Guava's `Iterables.skip` and `Iterables.limit`, line 66) and GceImages.StateName (`Enum.name()`, line 49) carry no contract of their own. What the conversion needs of them is the lemmas ImageToImage.SkipThenLimit and GceImages.StateNamesDistinct.
- OsFamilies.FromValue: the ensures clause only states soundness; completeness is the separate lemma `OsFamilies.FromValueFindsNamedFamily`.
