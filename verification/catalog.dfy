/**
 The configured catalog of documented projects, as the application
 configuration holds it once loaded, and the semantic-version library the
 resolution logic consults.
 */
module Catalog {
  import opened Wrappers

  /** One published documentation archive, named by its version string. */
  datatype Version = Version(name: string)

  /** A group's representative version (say "1.2") and its published versions,
      in configured order. */
  datatype VersionGroup = VersionGroup(version: string, versions: seq<Version>)

  /** A documented project. Its version groups are kept as the values of the
      configured map, in that map's iteration order; the keys play no part in
      resolution. */
  datatype Endpoint = Endpoint(name: string, versionGroups: seq<VersionGroup>)

  /** The endpoints of the application configuration, in configured order. */
  datatype AppConfiguration = AppConfiguration(endpoints: seq<Endpoint>)

  /** A LOOSE parse: the minor component, absent when the string has none,
      or a failure, as when the major or minor token is not an int. */
  datatype LooseParse = Loose(minor: Option<int>) | LooseFailure

  /**
   What the resolution logic asks of the semantic-version library, given as
   functions of a version string:
   - loose: the outcome of a LOOSE parse;
   - patch: the patch component of a strict parse;
   - isGreaterThan(a, b): whether the strict parse of a is greater than
     that of b.
   The strict parse is taken to succeed on every configured version name.
   Nothing else is assumed about these functions.
   */
  datatype SemverLib = SemverLib(
    loose: string -> LooseParse,
    patch: string -> int,
    isGreaterThan: (string, string) -> bool)
}
