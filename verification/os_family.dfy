/**
 The portable operating-system families and the lookup that turns a piece of
 an image name into one: the text is upper-cased (ASCII letters only) and
 matched against the constants' names; anything else is `UNRECOGNIZED`.
 */
module OsFamilies {

  datatype OsFamily =
    | UNRECOGNIZED | AIX | ARCH | CENTOS | DARWIN | DEBIAN | ESX | FEDORA | FREEBSD
    | GENTOO | HPUX | LINUX | COREOS | AMZN_LINUX | MANDRIVA | NETBSD | OEL | OPENBSD
    | RHEL | SCIENTIFIC | CLOUD_LINUX | SOLARIS | SUSE | TURBOLINUX | UBUNTU | WINDOWS

  /** The constant's name, as Java's `Enum.name()` spells it. */
  function Name(f: OsFamily): string
  {
    match f
    case UNRECOGNIZED => "UNRECOGNIZED"
    case AIX => "AIX"
    case ARCH => "ARCH"
    case CENTOS => "CENTOS"
    case DARWIN => "DARWIN"
    case DEBIAN => "DEBIAN"
    case ESX => "ESX"
    case FEDORA => "FEDORA"
    case FREEBSD => "FREEBSD"
    case GENTOO => "GENTOO"
    case HPUX => "HPUX"
    case LINUX => "LINUX"
    case COREOS => "COREOS"
    case AMZN_LINUX => "AMZN_LINUX"
    case MANDRIVA => "MANDRIVA"
    case NETBSD => "NETBSD"
    case OEL => "OEL"
    case OPENBSD => "OPENBSD"
    case RHEL => "RHEL"
    case SCIENTIFIC => "SCIENTIFIC"
    case CLOUD_LINUX => "CLOUD_LINUX"
    case SOLARIS => "SOLARIS"
    case SUSE => "SUSE"
    case TURBOLINUX => "TURBOLINUX"
    case UBUNTU => "UBUNTU"
    case WINDOWS => "WINDOWS"
  }

  /** Every recognised family, in declaration order. */
  const Recognised: seq<OsFamily> := [
    AIX, ARCH, CENTOS, DARWIN, DEBIAN, ESX, FEDORA, FREEBSD, GENTOO, HPUX, LINUX,
    COREOS, AMZN_LINUX, MANDRIVA, NETBSD, OEL, OPENBSD, RHEL, SCIENTIFIC,
    CLOUD_LINUX, SOLARIS, SUSE, TURBOLINUX, UBUNTU, WINDOWS]

  /** ASCII upper-casing of one character: `a`..`z` become `A`..`Z`, every other character is kept. */
  function UpperChar(c: char): char
  {
    if 'a' <= c <= 'z' then c - 'a' + 'A' else c
  }

  /** ASCII upper-casing of a string, character by character. */
  function AsciiUpper(s: string): (r: string)
    ensures |r| == |s|
    ensures forall i :: 0 <= i < |r| ==> !('a' <= r[i] <= 'z')
    ensures forall i :: 0 <= i < |s| && !('a' <= s[i] <= 'z') ==> r[i] == s[i]
    ensures forall i :: 0 <= i < |s| && 'a' <= s[i] <= 'z' ==> r[i] as int == s[i] as int - 32
  {
    seq(|s|, i requires 0 <= i < |s| => UpperChar(s[i]))
  }

  /** Upper-casing twice is upper-casing once. */
  lemma AsciiUpperIdempotent(s: string)
    ensures AsciiUpper(AsciiUpper(s)) == AsciiUpper(s)
  {
  }

  /** The first family of `fs` whose name is `u`, or `UNRECOGNIZED` when there is none. */
  function Lookup(u: string, fs: seq<OsFamily>): (r: OsFamily)
    requires UNRECOGNIZED !in fs
    ensures r == UNRECOGNIZED || (r in fs && Name(r) == u)
    ensures r == UNRECOGNIZED ==> forall i :: 0 <= i < |fs| ==> Name(fs[i]) != u
  {
    if |fs| == 0 then UNRECOGNIZED
    else if Name(fs[0]) == u then fs[0]
    else Lookup(u, fs[1..])
  }

  /**
   The family a piece of text names: a recognised family whose name is the
   upper-cased text, and `UNRECOGNIZED` when there is none.
   */
  function FromValue(v: string): (r: OsFamily)
    ensures r != UNRECOGNIZED ==> Name(r) == AsciiUpper(v)
  {
    Lookup(AsciiUpper(v), Recognised)
  }

  /** The lookup finds the family whenever the upper-cased text is its name. */
  lemma FromValueFindsNamedFamily(v: string, f: OsFamily)
    requires f != UNRECOGNIZED && Name(f) == AsciiUpper(v)
    ensures FromValue(v) == f
  {
    NameIsRecognised(f);
    NamesDistinct(FromValue(v), f);
  }

  /** Every family's name has at least three letters. */
  lemma NameLength(f: OsFamily)
    ensures |Name(f)| >= 3
  {
  }

  /** A one-letter piece names no family. */
  lemma OneLetterIsNoFamily(v: string)
    requires |v| == 1
    ensures FromValue(v) == UNRECOGNIZED
  {
    NameLength(FromValue(v));
  }

  /** Every family except `UNRECOGNIZED` is listed in `Recognised`. */
  lemma NameIsRecognised(f: OsFamily)
    requires f != UNRECOGNIZED
    ensures f in Recognised
  {
  }

  /** Distinct families have distinct names. */
  lemma NamesDistinct(f: OsFamily, g: OsFamily)
    ensures Name(f) == Name(g) ==> f == g
  {
  }
}
