/** The two catalog scans of the controller: project by name, and version
    group by requested version. Both return the first match in configured
    order, or nothing. */
module Lookup {
  import opened Wrappers
  import opened Strings
  import opened Catalog

  predicate NameMatches(e: Endpoint, name: string) {
    EqualsIgnoreCase(e.name, name)
  }

  /** Index k holds the first endpoint whose name matches. */
  predicate FirstProjectMatch(endpoints: seq<Endpoint>, name: string, k: nat) {
    && k < |endpoints|
    && NameMatches(endpoints[k], name)
    && forall j | 0 <= j < k :: !NameMatches(endpoints[j], name)
  }

  /** The endpoint configured under `name`, compared ignoring case. */
  function Project(endpoints: seq<Endpoint>, name: string): (r: Option<Endpoint>)
    ensures r.None? <==> forall i | 0 <= i < |endpoints| :: !NameMatches(endpoints[i], name)
    ensures r.Some? ==> r.value in endpoints && NameMatches(r.value, name)
  {
    if |endpoints| == 0 then None
    else if NameMatches(endpoints[0], name) then Some(endpoints[0])
    else Project(endpoints[1..], name)
  }

  /** The first matching endpoint is the one returned, whatever follows it. */
  lemma {:induction false} ProjectReturnsFirstMatch(endpoints: seq<Endpoint>, name: string, k: nat)
    requires FirstProjectMatch(endpoints, name, k)
    ensures Project(endpoints, name) == Some(endpoints[k])
    decreases k
  {
    if k > 0 {
      assert !NameMatches(endpoints[0], name);
      assert FirstProjectMatch(endpoints[1..], name, k - 1) by {
        forall j | 0 <= j < k - 1
          ensures !NameMatches(endpoints[1..][j], name)
        {
          assert endpoints[1..][j] == endpoints[j + 1];
        }
      }
      ProjectReturnsFirstMatch(endpoints[1..], name, k - 1);
    }
  }

  /** A non-empty list of endpoints with a match has a first one, and that
      is the one returned. */
  lemma {:induction false} ProjectFirstMatchExists(endpoints: seq<Endpoint>, name: string)
    requires Project(endpoints, name).Some?
    ensures exists k: nat :: FirstProjectMatch(endpoints, name, k) && Project(endpoints, name) == Some(endpoints[k])
    decreases |endpoints|
  {
    if NameMatches(endpoints[0], name) {
      assert FirstProjectMatch(endpoints, name, 0);
    } else {
      ProjectFirstMatchExists(endpoints[1..], name);
      var k: nat :| FirstProjectMatch(endpoints[1..], name, k) && Project(endpoints[1..], name) == Some(endpoints[1..][k]);
      assert endpoints[k + 1] == endpoints[1..][k];
      assert FirstProjectMatch(endpoints, name, k + 1) by {
        forall j | 0 <= j < k + 1
          ensures !NameMatches(endpoints[j], name)
        {
          if j > 0 {
            assert endpoints[j] == endpoints[1..][j - 1];
          }
        }
      }
    }
  }

  /** Both LOOSE parses made at one group succeed: the group's version and
      the requested version. */
  predicate GroupParses(lib: SemverLib, g: VersionGroup, version: string) {
    lib.loose(g.version).Loose? && lib.loose(version).Loose?
  }

  /** The group test: both parse and their minors are equal, both possibly
      absent. */
  predicate GroupMatches(lib: SemverLib, g: VersionGroup, version: string) {
    GroupParses(lib, g, version) && lib.loose(g.version).minor == lib.loose(version).minor
  }

  /** Index k holds the first matching group, and every group before it
      parses without matching. */
  predicate FirstGroupMatch(lib: SemverLib, groups: seq<VersionGroup>, version: string, k: nat) {
    && k < |groups|
    && GroupMatches(lib, groups[k], version)
    && forall j | 0 <= j < k :: GroupParses(lib, groups[j], version) && !GroupMatches(lib, groups[j], version)
  }

  /**
   The version group a requested version belongs to. The scan throws at the
   first group where a LOOSE parse fails, unless a match came before it.
   */
  function FindFromVersion(lib: SemverLib, groups: seq<VersionGroup>, version: string): (r: Throws<Option<VersionGroup>>)
    ensures r.Thrown? <==>
              exists i | 0 <= i < |groups| ::
                && !GroupParses(lib, groups[i], version)
                && forall j | 0 <= j < i :: !GroupMatches(lib, groups[j], version)
    ensures r == Returned(None) <==>
              forall i | 0 <= i < |groups| :: GroupParses(lib, groups[i], version) && !GroupMatches(lib, groups[i], version)
    ensures r.Returned? && r.value.Some? ==> r.value.value in groups && GroupMatches(lib, r.value.value, version)
  {
    if |groups| == 0 then Returned(None)
    else if !GroupParses(lib, groups[0], version) then Thrown
    else if GroupMatches(lib, groups[0], version) then Returned(Some(groups[0]))
    else
      var r := FindFromVersion(lib, groups[1..], version);
      assert forall i | 0 < i < |groups| :: groups[i] == groups[1..][i - 1];
      assert r.Thrown? ==> exists i | 0 <= i < |groups| ::
                && !GroupParses(lib, groups[i], version)
                && forall j | 0 <= j < i :: !GroupMatches(lib, groups[j], version) by {
        if r.Thrown? {
          var i :| 0 <= i < |groups[1..]| && !GroupParses(lib, groups[1..][i], version)
                   && forall j | 0 <= j < i :: !GroupMatches(lib, groups[1..][j], version);
          assert !GroupParses(lib, groups[i + 1], version);
        }
      }
      r
  }

  /** The first matching group is the one returned; a later matching group
      never is, unless it equals the first. */
  lemma {:induction false} FindFromVersionReturnsFirstMatch(lib: SemverLib, groups: seq<VersionGroup>, version: string, k: nat)
    requires FirstGroupMatch(lib, groups, version, k)
    ensures FindFromVersion(lib, groups, version) == Returned(Some(groups[k]))
    decreases k
  {
    if k > 0 {
      assert GroupParses(lib, groups[0], version) && !GroupMatches(lib, groups[0], version);
      assert FirstGroupMatch(lib, groups[1..], version, k - 1) by {
        forall j | 0 <= j < k - 1
          ensures GroupParses(lib, groups[1..][j], version) && !GroupMatches(lib, groups[1..][j], version)
        {
          assert groups[1..][j] == groups[j + 1];
        }
      }
      FindFromVersionReturnsFirstMatch(lib, groups[1..], version, k - 1);
    }
  }

  /** A group that is returned is the first match. */
  lemma {:induction false} FindFromVersionFirstMatchExists(lib: SemverLib, groups: seq<VersionGroup>, version: string)
    requires var r := FindFromVersion(lib, groups, version); r.Returned? && r.value.Some?
    ensures exists k: nat :: FirstGroupMatch(lib, groups, version, k)
                     && FindFromVersion(lib, groups, version) == Returned(Some(groups[k]))
    decreases |groups|
  {
    if GroupMatches(lib, groups[0], version) {
      assert FirstGroupMatch(lib, groups, version, 0);
    } else {
      FindFromVersionFirstMatchExists(lib, groups[1..], version);
      var k: nat :| FirstGroupMatch(lib, groups[1..], version, k)
               && FindFromVersion(lib, groups[1..], version) == Returned(Some(groups[1..][k]));
      assert groups[k + 1] == groups[1..][k];
      assert FirstGroupMatch(lib, groups, version, k + 1) by {
        forall j | 0 <= j < k + 1
          ensures GroupParses(lib, groups[j], version) && !GroupMatches(lib, groups[j], version)
        {
          if j > 0 {
            assert groups[j] == groups[1..][j - 1];
          }
        }
      }
    }
  }

  /**
   A requested version that fails its LOOSE parse makes the scan throw as
   soon as there is a group to compare it with.
   */
  lemma UnparseableVersionThrows(lib: SemverLib, groups: seq<VersionGroup>, version: string)
    requires |groups| > 0 && lib.loose(version).LooseFailure?
    ensures FindFromVersion(lib, groups, version) == Thrown
  {
  }

  /**
   Only the LOOSE parse of the requested version is consulted, and of it only
   the minor: two requests that parse to the same minor (for instance "1.3"
   and "2.3", which differ in the major) land in the same group.
   */
  lemma {:induction false} FindFromVersionDependsOnlyOnMinor(lib: SemverLib, groups: seq<VersionGroup>, v1: string, v2: string)
    requires lib.loose(v1) == lib.loose(v2)
    ensures FindFromVersion(lib, groups, v1) == FindFromVersion(lib, groups, v2)
    decreases |groups|
  {
    if |groups| > 0 {
      FindFromVersionDependsOnlyOnMinor(lib, groups[1..], v1, v2);
    }
  }
}
