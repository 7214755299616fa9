/**
 Conversion of a provider image record into a portable image description.

 The identity fields are copied, the status and metadata follow the
 optional deprecation record, and the operating system is read off the
 image name: split on `-`, a name of three or more pieces gives the family
 (first piece), the operating-system version (the middle pieces joined with
 `.`) and the image version (last piece); a shorter name gives a default
 64-bit Linux described by the name.
 */
module ImageToImage {
  import opened Optional
  import opened JavaStrings
  import opened OsFamilies
  import Gce = GceImages
  import Compute = ComputeImages

  /** The metadata key under which a deprecated image records its state. */
  const DeprecatedStateKey: string := "deprecatedState"

  /** The elements of `s` after the first `n` (Guava's `Iterables.skip`). */
  function Skip<T>(s: seq<T>, n: nat): seq<T>
  {
    if n <= |s| then s[n..] else []
  }

  /** At most the first `n` elements of `s` (Guava's `Iterables.limit`). */
  function Limit<T>(s: seq<T>, n: nat): seq<T>
  {
    if n <= |s| then s[..n] else s
  }

  /** Skipping the first element and keeping the next `|s| - 2` leaves every element but the two ends. */
  lemma SkipThenLimit<T>(s: seq<T>)
    requires |s| >= 2
    ensures Limit(Skip(s, 1), |s| - 2) == s[1..|s| - 1]
  {
    assert s[1..][..|s| - 2] == s[1..|s| - 1];
  }

  /** The operating system assumed when the name says nothing: 64-bit Linux described by the name. */
  function DefaultOperatingSystem(image: Gce.Image): (os: Compute.OperatingSystem)
    ensures os.family == LINUX && os.version == None
    ensures os.is64Bit && os.description == image.name
  {
    Compute.OperatingSystem(LINUX, None, image.name, true)
  }

  /** Deleted when the deprecation record says so, available otherwise. */
  function StatusOf(deprecated: Option<Gce.Deprecation>): Compute.Status
  {
    if deprecated.Some? && deprecated.value.state == Gce.DELETED then Compute.DELETED
    else Compute.AVAILABLE
  }

  /** The deprecation state under its metadata key, when there is a deprecation record. */
  function MetadataOf(deprecated: Option<Gce.Deprecation>): map<string, string>
  {
    if deprecated.Some? then map[DeprecatedStateKey := Gce.StateName(deprecated.value.state)]
    else map[]
  }

  /**
   The default operating system, refined by the name's pieces when there are
   at least three; `fromValue` turns the first piece into a family.
   */
  function ParseOperatingSystem(
    image: Gce.Image, splits: seq<string>, fromValue: string -> OsFamily): Compute.OperatingSystem
  {
    var os := DefaultOperatingSystem(image);
    if |splits| < 3 then os
    else
      var family := fromValue(splits[0]);
      var os := if family != UNRECOGNIZED then os.(family := family) else os;
      os.(version := Some(Join(Limit(Skip(splits, 1), |splits| - 2), '.')))
  }

  /** The last piece of the name, when there are at least three. */
  function ImageVersion(splits: seq<string>): Option<string>
  {
    if |splits| < 3 then None else Some(splits[|splits| - 1])
  }

  /**
   The portable description of a provider image. Total: every image converts.
   `fromValue` is the family lookup applied to the first piece of the name;
   `Convert` supplies the real one.
   */
  function Apply(image: Gce.Image, fromValue: string -> OsFamily): (r: Compute.Image)
    // identity passes through unchanged
    ensures r.id == image.selfLink && r.uri == image.selfLink
    ensures r.providerId == image.id
    ensures r.name == image.name && r.description == image.description
    // status: deleted exactly when the deprecation record says deleted
    ensures r.status == Compute.AVAILABLE || r.status == Compute.DELETED
    ensures r.status == Compute.DELETED <==>
      image.deprecated.Some? && image.deprecated.value.state == Gce.DELETED
    // metadata: one entry exactly when there is a deprecation record
    ensures image.deprecated.None? ==> r.userMetadata == map[]
    ensures image.deprecated.Some? ==>
      r.userMetadata == map[DeprecatedStateKey := Gce.StateName(image.deprecated.value.state)]
    // operating system and version, from the name's pieces
    ensures r.operatingSystem.is64Bit && r.operatingSystem.description == image.name
    ensures r.operatingSystem.family != UNRECOGNIZED
    ensures var p := JavaSplit(image.name, '-');
      |p| < 3 ==>
        && r.operatingSystem.family == LINUX
        && r.operatingSystem.version == None
        && r.version == None
    ensures var p := JavaSplit(image.name, '-');
      |p| >= 3 ==>
        && r.operatingSystem.version == Some(Join(p[1..|p| - 1], '.'))
        && r.version == Some(p[|p| - 1])
        && (fromValue(p[0]) != UNRECOGNIZED ==> r.operatingSystem.family == fromValue(p[0]))
        && (fromValue(p[0]) == UNRECOGNIZED ==> r.operatingSystem.family == LINUX)
  {
    var splits := JavaSplit(image.name, '-');
    assert |splits| >= 2 ==> Limit(Skip(splits, 1), |splits| - 2) == splits[1..|splits| - 1] by {
      if |splits| >= 2 { SkipThenLimit(splits); }
    }
    Compute.Image(
      id := image.selfLink,
      providerId := image.id,
      name := image.name,
      description := image.description,
      status := StatusOf(image.deprecated),
      uri := image.selfLink,
      userMetadata := MetadataOf(image.deprecated),
      version := ImageVersion(splits),
      operatingSystem := ParseOperatingSystem(image, splits, fromValue))
  }

  /** The conversion with the portable family lookup, as the converter performs it. */
  function Convert(image: Gce.Image): (r: Compute.Image)
    ensures var p := JavaSplit(image.name, '-');
      r.operatingSystem.family == LINUX
      || (|p| >= 3 && Name(r.operatingSystem.family) == AsciiUpper(p[0]))
  {
    Apply(image, FromValue)
  }

  /**
   With the portable lookup, a name of three or more pieces gets the family
   whose name is its first piece upper-cased, whenever there is one.
   */
  lemma ConvertFamilyFromFirstPiece(image: Gce.Image, g: OsFamily)
    requires |JavaSplit(image.name, '-')| >= 3
    ensures var p := JavaSplit(image.name, '-');
      g != UNRECOGNIZED && Name(g) == AsciiUpper(p[0]) ==> Convert(image).operatingSystem.family == g
  {
    var p := JavaSplit(image.name, '-');
    if g != UNRECOGNIZED && Name(g) == AsciiUpper(p[0]) {
      FromValueFindsNamedFamily(p[0], g);
    }
  }

  /**
   Status and metadata tell the same story: the image is deleted exactly when
   its metadata records the state `DELETED`, and the metadata is empty exactly
   when there is no deprecation record.
   */
  lemma StatusAgreesWithMetadata(image: Gce.Image, fromValue: string -> OsFamily)
    ensures var r := Apply(image, fromValue);
      r.status == Compute.DELETED <==>
        DeprecatedStateKey in r.userMetadata
        && r.userMetadata[DeprecatedStateKey] == Gce.StateName(Gce.DELETED)
    ensures var r := Apply(image, fromValue);
      r.userMetadata == map[] <==> image.deprecated.None?
  {
    var r := Apply(image, fromValue);
    if image.deprecated.Some? {
      assert DeprecatedStateKey in r.userMetadata;
      Gce.StateNamesDistinct(image.deprecated.value.state, Gce.DELETED);
    }
  }

  /**
   With no `.` in the name, the operating-system version splits back on `.`
   into exactly the middle pieces of the name.
   */
  lemma OsVersionSplitsBack(image: Gce.Image, fromValue: string -> OsFamily)
    requires '.' !in image.name
    requires |JavaSplit(image.name, '-')| >= 3
    ensures var p := JavaSplit(image.name, '-');
      SplitAll(Apply(image, fromValue).operatingSystem.version.value, '.') == p[1..|p| - 1]
  {
    var p := JavaSplit(image.name, '-');
    var middle := p[1..|p| - 1];
    assert Apply(image, fromValue).operatingSystem.version.value == Join(middle, '.');
    MiddlePiecesSplitBack(image.name, '-', '.');
  }

  /**
   With no `.` in the name, the name's pieces are recovered from the parts the
   conversion produced: the first piece, the pieces of the operating-system
   version split on `.`, and the image version.
   */
  lemma PiecesRecoveredFromParts(image: Gce.Image, fromValue: string -> OsFamily)
    requires '.' !in image.name
    requires |JavaSplit(image.name, '-')| >= 3
    ensures var p, r := JavaSplit(image.name, '-'), Apply(image, fromValue);
      p == [p[0]] + SplitAll(r.operatingSystem.version.value, '.') + [r.version.value]
  {
    var p := JavaSplit(image.name, '-');
    OsVersionSplitsBack(image, fromValue);
    assert p == [p[0]] + p[1..|p| - 1] + [p[|p| - 1]];
  }

  /**
   The name itself is recovered by joining those parts with `-`, for every name
   of three or more pieces that has no `.` and does not end with `-`.
   */
  lemma NameRecoveredFromParts(image: Gce.Image, fromValue: string -> OsFamily)
    requires '.' !in image.name
    requires |image.name| > 0 && image.name[|image.name| - 1] != '-'
    requires |JavaSplit(image.name, '-')| >= 3
    ensures var p, r := JavaSplit(image.name, '-'), Apply(image, fromValue);
      image.name == Join([p[0]] + SplitAll(r.operatingSystem.version.value, '.') + [r.version.value], '-')
  {
    PiecesRecoveredFromParts(image, fromValue);
    JavaSplitJoin(image.name, '-');
  }

  /** The pieces of the name `debian-7-wheezy-v20140718`. */
  const DebianWheezyPieces: seq<string> := ["debian", "7", "wheezy", "v20140718"]

  /**
   An image named like the one the repository's own tests boot,
   `debian-7-wheezy-v20140718`; its id and description are illustrative.
   */
  const DebianWheezy: Gce.Image := Gce.Image(
    id := "1",
    selfLink := "https://www.googleapis.com/compute/v1/projects/debian-cloud/global/images/debian-7-wheezy-v20140718",
    name := "debian-7-wheezy-v20140718",
    description := None,
    deprecated := None)

  /** The fixture's name is its pieces joined with `-`. */
  lemma DebianWheezyNameIsJoin()
    ensures DebianWheezy.name == Join(DebianWheezyPieces, '-')
  {
  }

  /** Splitting the joined pieces on `-` gives them back. */
  lemma DebianWheezyNameSplits(name: string)
    requires name == Join(DebianWheezyPieces, '-')
    ensures JavaSplit(name, '-') == DebianWheezyPieces
  {
    JavaSplitOfJoin(DebianWheezyPieces, '-');
  }

  /** Worked example: family DEBIAN, operating-system version `7.wheezy`, image version `v20140718`. */
  lemma DebianWheezyExample()
    ensures Convert(DebianWheezy).operatingSystem.family == DEBIAN
    ensures Convert(DebianWheezy).operatingSystem.version == Some("7.wheezy")
    ensures Convert(DebianWheezy).version == Some("v20140718")
    ensures Convert(DebianWheezy).status == Compute.AVAILABLE
  {
    DebianWheezyNameIsJoin();
    DebianWheezyNameSplits(DebianWheezy.name);
    DebianWheezyFamily();
    DebianWheezyOsVersion();
  }

  /** The portable lookup reads `debian` as DEBIAN. */
  lemma DebianWheezyFamily()
    ensures FromValue(DebianWheezyPieces[0]) == DEBIAN
  {
    var u := AsciiUpper("debian");
    assert |u| == 6;
    assert u[0] == 'D' && u[1] == 'E' && u[2] == 'B' && u[3] == 'I' && u[4] == 'A' && u[5] == 'N';
    assert u == Name(DEBIAN);
    FromValueFindsNamedFamily("debian", DEBIAN);
  }

  /** The fixture's middle pieces join to `7.wheezy`. */
  lemma DebianWheezyOsVersion()
    ensures var p := DebianWheezyPieces; Join(p[1..|p| - 1], '.') == "7.wheezy"
  {
    var p := DebianWheezyPieces;
    var middle := ["7", "wheezy"];
    assert p[1..|p| - 1] == middle;
    assert middle[1..] == ["wheezy"];
    assert Join(middle, '.') == "7" + ['.'] + "wheezy";
  }

  /**
   A name of fewer than three pieces gives exactly the default operating
   system, whatever the lookup.
   */
  lemma ShortNameKeepsDefault(image: Gce.Image, fromValue: string -> OsFamily)
    requires |JavaSplit(image.name, '-')| < 3
    ensures Apply(image, fromValue).operatingSystem == DefaultOperatingSystem(image)
  {
  }

  /**
   A name of two pieces, such as `debian-7`, is too short to parse: the
   default operating system is used and no image version is set.
   */
  lemma TwoPieceNameExample(image: Gce.Image, fromValue: string -> OsFamily)
    requires image.name == "debian-7"
    ensures Apply(image, fromValue).operatingSystem == DefaultOperatingSystem(image)
    ensures Apply(image, fromValue).version == None
  {
    var p := ["debian", "7"];
    assert Join(p, '-') == image.name;
    JavaSplitOfJoin(p, '-');
  }

  /**
   An empty piece in the middle of the name is kept: `a--b` has three pieces,
   so it parses, with an empty operating-system version. A lookup that does
   not recognise `a` leaves the family at LINUX.
   */
  lemma InteriorEmptyPieceParses(image: Gce.Image, fromValue: string -> OsFamily)
    requires image.name == "a--b"
    requires fromValue("a") == UNRECOGNIZED
    ensures Apply(image, fromValue).operatingSystem.family == LINUX
    ensures Apply(image, fromValue).operatingSystem.version == Some("")
    ensures Apply(image, fromValue).version == Some("b")
  {
    JavaSplitInteriorEmpty();
    var p := JavaSplit(image.name, '-');
    assert p[1..|p| - 1] == [""];
  }

  /** The portable lookup does not recognise the one-letter `a`, so `a--b` converts with family LINUX. */
  lemma InteriorEmptyPieceExample(image: Gce.Image)
    requires image.name == "a--b"
    ensures Convert(image).operatingSystem.family == LINUX
    ensures Convert(image).operatingSystem.version == Some("")
    ensures Convert(image).version == Some("b")
  {
    OneLetterIsNoFamily("a");
    InteriorEmptyPieceParses(image, FromValue);
  }
}
