/**
 The running-maximum scan that picks the version a group redirects to.
 A candidate takes over from the current pick when nothing is picked yet,
 when it is semver-greater, or when its patch is larger: the patch test is
 made on its own, so it can displace a semver-greater pick.
 */
module Latest {
  import opened Wrappers
  import opened Catalog

  /** Whether `candidate` displaces the current pick. */
  predicate Replaces(lib: SemverLib, candidate: Version, current: Option<Version>) {
    || current.None?
    || lib.isGreaterThan(candidate.name, current.value.name)
    || lib.patch(candidate.name) > lib.patch(current.value.name)
  }

  function Pick(vs: seq<Version>, cur: Option<nat>): Option<Version>
    requires cur.Some? ==> cur.value < |vs|
  {
    if cur.Some? then Some(vs[cur.value]) else None
  }

  /** What holds after the first i versions have been scanned with pick cur:
      something is picked once anything was scanned, and nothing scanned
      after the pick displaces it. */
  predicate ScanInvariant(lib: SemverLib, vs: seq<Version>, i: nat, cur: Option<nat>) {
    && i <= |vs|
    && (cur.None? <==> i == 0)
    && (cur.Some? ==>
          && cur.value < i
          && forall j | cur.value < j < i :: !Replaces(lib, vs[j], Some(vs[cur.value])))
  }

  /** The scan from index i on, with pick cur so far; yields the index of the
      final pick. */
  function Scan(lib: SemverLib, vs: seq<Version>, i: nat, cur: Option<nat>): (r: Option<nat>)
    requires ScanInvariant(lib, vs, i, cur)
    ensures r.None? <==> |vs| == 0
    ensures r.Some? ==> r.value < |vs|
    ensures r.Some? ==> forall j | r.value < j < |vs| :: !Replaces(lib, vs[j], Some(vs[r.value]))
    decreases |vs| - i
  {
    if i == |vs| then cur
    else if Replaces(lib, vs[i], Pick(vs, cur)) then Scan(lib, vs, i + 1, Some(i))
    else Scan(lib, vs, i + 1, cur)
  }

  /** Index of the version latestVersionFromGroup returns. */
  function LatestIndex(lib: SemverLib, vs: seq<Version>): (r: Option<nat>)
    ensures r.None? <==> |vs| == 0
    ensures r.Some? ==> r.value < |vs|
    ensures r.Some? ==> forall j | r.value < j < |vs| :: !Replaces(lib, vs[j], Some(vs[r.value]))
  {
    Scan(lib, vs, 0, None)
  }

  /**
   The latest version of a group: absent exactly when the group lists no
   versions, otherwise one of them, and the only one of a singleton group.
   No version listed after it is semver-greater or has a larger patch.
   */
  function LatestVersionFromGroup(lib: SemverLib, g: VersionGroup): (r: Option<Version>)
    ensures r.None? <==> |g.versions| == 0
    ensures r.Some? ==> r.value in g.versions
    ensures |g.versions| == 1 ==> r == Some(g.versions[0])
    ensures r.Some? ==> exists k | 0 <= k < |g.versions| ::
      && g.versions[k] == r.value
      && forall j | k < j < |g.versions| ::
           && !lib.isGreaterThan(g.versions[j].name, r.value.name)
           && lib.patch(g.versions[j].name) <= lib.patch(r.value.name)
  {
    var k := LatestIndex(lib, g.versions);
    if k.Some? then Some(g.versions[k.value]) else None
  }

  /** Reference definition: the scan as a left fold, one step per version
      appended. */
  function LatestFold(lib: SemverLib, vs: seq<Version>): Option<Version>
    decreases |vs|
  {
    if |vs| == 0 then None
    else
      var prev := LatestFold(lib, vs[..|vs| - 1]);
      if Replaces(lib, vs[|vs| - 1], prev) then Some(vs[|vs| - 1]) else prev
  }

  /** Scanning a longer list from the same state: the extra version is one
      more step after the shorter scan. */
  lemma {:induction false} ScanSnoc(lib: SemverLib, vs: seq<Version>, x: Version, i: nat, cur: Option<nat>)
    requires ScanInvariant(lib, vs, i, cur)
    ensures ScanInvariant(lib, vs + [x], i, cur)
    ensures var prev := Scan(lib, vs, i, cur);
            Scan(lib, vs + [x], i, cur)
            == if Replaces(lib, x, Pick(vs, prev)) then Some(|vs|) else prev
    decreases |vs| - i
  {
    var ws := vs + [x];
    assert forall j | 0 <= j < |vs| :: ws[j] == vs[j];
    assert Pick(ws, cur) == Pick(vs, cur);
    if i < |vs| {
      if Replaces(lib, vs[i], Pick(vs, cur)) {
        ScanSnoc(lib, vs, x, i + 1, Some(i));
      } else {
        ScanSnoc(lib, vs, x, i + 1, cur);
      }
    } else {
      assert ws[|vs|] == x;
    }
  }

  /** The scan agrees with its fold reference on every list. */
  lemma {:induction false} LatestMatchesFold(lib: SemverLib, vs: seq<Version>)
    ensures Pick(vs, LatestIndex(lib, vs)) == LatestFold(lib, vs)
    decreases |vs|
  {
    if |vs| > 0 {
      var init := vs[..|vs| - 1];
      var x := vs[|vs| - 1];
      assert init + [x] == vs;
      LatestMatchesFold(lib, init);
      ScanSnoc(lib, init, x, 0, None);
      var prev := LatestIndex(lib, init);
      assert Pick(init, prev) == Pick(vs, prev);
    }
  }

  /**
   The patch override: of two versions, the second is returned whenever its
   patch is larger, even when the first is semver-greater.
   */
  lemma PatchOverridesSemverOrder(lib: SemverLib, group: string, a: Version, b: Version)
    requires lib.patch(b.name) > lib.patch(a.name)
    ensures LatestVersionFromGroup(lib, VersionGroup(group, [a, b])) == Some(b)
  {
    var vs := [a, b];
    assert Scan(lib, vs, 2, Some(1)) == Some(1);
    assert Scan(lib, vs, 1, Some(0)) == Some(1);
  }
}
