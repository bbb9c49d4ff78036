/**
 The two request handlers of the documentation controller. A request is
 given as plain strings: the request URI, the path within the handler
 mapping, and the project and version captured by the route. The archive
 service is a map from (project, version) to the regular-file paths of the
 mounted archive; a key without an entry has no archive.
 */
module JavadocController {
  import opened Wrappers
  import opened Strings
  import opened Catalog
  import opened Lookup
  import opened Latest
  import opened Http

  datatype ArchiveKey = ArchiveKey(project: string, version: string)

  /** Each mounted archive's regular-file paths, by key. */
  type Archives = map<ArchiveKey, set<string>>

  /** What the route's `{project}` pattern admits: one or more of a-z. */
  predicate IsRouteProject(project: string) {
    |project| > 0 && forall i | 0 <= i < |project| :: 'a' <= project[i] <= 'z'
  }

  /** What the route's `{version}` pattern admits at its start: a digit or a dot. */
  predicate IsRouteVersionStart(version: string) {
    |version| > 0 && ('0' <= version[0] <= '9' || version[0] == '.')
  }

  /** `/{project}/{version}` without a trailing slash: redirected to the same
      URI with '/' appended, whatever the catalog and archives hold. */
  function RedirectToPathWithTrailingSlash(requestUri: string): (r: Response)
    ensures r.Found?
    ensures StartsWith(r.location, requestUri)
    ensures |r.location| == |requestUri| + 1 && r.location[|requestUri|] == '/'
  {
    Found(requestUri + "/")
  }

  /** The prefix `/{project}/{version}` of every path the handler serves. */
  function Root(project: string, version: string): string {
    "/" + project + "/" + version
  }

  /** The in-archive path of a request: the path with the root stripped, a
      bare "/" standing for the index page. */
  function InArchivePath(pathWithin: string, root: string): (r: string)
    requires StartsWith(pathWithin, root)
    ensures pathWithin == root + "/" ==> r == "index.html"
    ensures pathWithin != root + "/" ==> root + r == pathWithin
  {
    var rest := pathWithin[|root|..];
    assert root + rest == pathWithin;
    if rest == "/" then "index.html" else rest
  }

  /**
   The version a request is redirected to, or the exception a failed LOOSE
   parse throws. The lookup throws only for a known project whose group scan
   throws. A version resolves exactly when the project is known, the
   requested version falls into one of its groups, and that group lists at
   least one version. It is then the latest of the first matching group of
   the first matching endpoint.
   */
  function ResolveLatest(lib: SemverLib, config: AppConfiguration, project: string, version: string): (r: Throws<Option<Version>>)
    ensures r.Thrown? <==>
              var ep := Project(config.endpoints, project);
              ep.Some? && FindFromVersion(lib, ep.value.versionGroups, version).Thrown?
    ensures r.Returned? && r.value.Some? <==>
              var ep := Project(config.endpoints, project);
              && ep.Some?
              && var g := FindFromVersion(lib, ep.value.versionGroups, version);
                 g.Returned? && g.value.Some? && |g.value.value.versions| > 0
    ensures r.Returned? && r.value.Some? ==>
              exists k: nat, m: nat ::
                && FirstProjectMatch(config.endpoints, project, k)
                && FirstGroupMatch(lib, config.endpoints[k].versionGroups, version, m)
                && r.value == LatestVersionFromGroup(lib, config.endpoints[k].versionGroups[m])
  {
    match Project(config.endpoints, project)
    case None => Returned(None)
    case Some(ep) =>
      match FindFromVersion(lib, ep.versionGroups, version)
      case Thrown => Thrown
      case Returned(None) => Returned(None)
      case Returned(Some(g)) =>
        var latest := LatestVersionFromGroup(lib, g);
        ProjectFirstMatchExists(config.endpoints, project);
        FindFromVersionFirstMatchExists(lib, ep.versionGroups, version);
        var k: nat :| FirstProjectMatch(config.endpoints, project, k) && ep == config.endpoints[k];
        var m: nat :| FirstGroupMatch(lib, ep.versionGroups, version, m) && g == ep.versionGroups[m];
        assert FirstGroupMatch(lib, config.endpoints[k].versionGroups, version, m);
        Returned(latest)
  }

  /**
   Serving from the archive of the literal (project, version): 200 with the
   static-asset cache rule, inline disposition, the marker header and the
   suffix content type when the in-archive path is a regular file of a
   mounted archive; 404 with no-cache otherwise.
   */
  function ServeFromArchive(archives: Archives, pathWithin: string, project: string, version: string): (r: Response)
    requires StartsWith(pathWithin, Root(project, version))
    ensures r.Ok? || r.NotFound?
    ensures var key := ArchiveKey(project, version);
            r.Ok? <==> key in archives && InArchivePath(pathWithin, Root(project, version)) in archives[key]
    ensures r.Ok? ==>
              && r.file == InArchivePath(pathWithin, Root(project, version))
              && r.cache == CacheFor(r.file)
              && r.disposition == Inline
              && r.marker == MarkerHeader
              && r.contentType == ContentType(FileName(r.file))
    ensures r.NotFound? ==> r.cache == NoCache
  {
    var key := ArchiveKey(project, version);
    if key in archives then
      var path := InArchivePath(pathWithin, Root(project, version));
      if path in archives[key] then
        Ok(path, CacheFor(path), Inline, MarkerHeader, ContentType(FileName(path)))
      else NotFound(NoCache)
    else NotFound(NoCache)
  }

  /**
   Paths below `/{project}/{version}/`: a server error when the version
   lookup throws; 302 exactly when a latest version resolves, to the request
   URI with every occurrence of the requested version replaced by the
   latest's name; otherwise the archive decides.
   */
  function ServeJavadocs(
    lib: SemverLib, config: AppConfiguration, archives: Archives,
    requestUri: string, pathWithin: string, project: string, version: string): (r: Response)
    requires |version| > 0
    requires StartsWith(pathWithin, Root(project, version))
    ensures var latest := ResolveLatest(lib, config, project, version);
            && (r.ServerError? <==> latest.Thrown?)
            && (r.Found? <==> latest.Returned? && latest.value.Some?)
            && (r.Found? ==> r.location == ReplaceAll(requestUri, version, latest.value.value.name))
    ensures !r.Found? && !r.ServerError? ==> r == ServeFromArchive(archives, pathWithin, project, version)
  {
    match ResolveLatest(lib, config, project, version)
    case Thrown => ServerError
    case Returned(Some(latest)) => Found(ReplaceAll(requestUri, version, latest.name))
    case Returned(None) => ServeFromArchive(archives, pathWithin, project, version)
  }

  /**
   A requested version whose LOOSE parse fails, for a configured project
   with at least one version group, makes the handler fail with a server
   error instead of falling through to the archive.
   */
  lemma UnparseableVersionFails(
    lib: SemverLib, config: AppConfiguration, archives: Archives,
    requestUri: string, pathWithin: string, project: string, version: string)
    requires |version| > 0
    requires StartsWith(pathWithin, Root(project, version))
    requires lib.loose(version).LooseFailure?
    requires var ep := Project(config.endpoints, project);
             ep.Some? && |ep.value.versionGroups| > 0
    ensures ServeJavadocs(lib, config, archives, requestUri, pathWithin, project, version) == ServerError
  {
    UnparseableVersionThrows(lib, Project(config.endpoints, project).value.versionGroups, version);
  }

  /** Once the redirect fires, the archives are not consulted. */
  lemma RedirectConsultsNoArchive(
    lib: SemverLib, config: AppConfiguration, a1: Archives, a2: Archives,
    requestUri: string, pathWithin: string, project: string, version: string)
    requires |version| > 0
    requires StartsWith(pathWithin, Root(project, version))
    requires var latest := ResolveLatest(lib, config, project, version);
             latest.Returned? && latest.value.Some?
    ensures ServeJavadocs(lib, config, a1, requestUri, pathWithin, project, version)
         == ServeJavadocs(lib, config, a2, requestUri, pathWithin, project, version)
  {
  }

  /** Only the archive of the literal requested (project, version) matters. */
  lemma ArchiveLookedUpByLiteralKey(
    lib: SemverLib, config: AppConfiguration, a1: Archives, a2: Archives,
    requestUri: string, pathWithin: string, project: string, version: string)
    requires |version| > 0
    requires StartsWith(pathWithin, Root(project, version))
    requires ArchiveKey(project, version) in a1 <==> ArchiveKey(project, version) in a2
    requires ArchiveKey(project, version) in a1 ==> a1[ArchiveKey(project, version)] == a2[ArchiveKey(project, version)]
    ensures ServeJavadocs(lib, config, a1, requestUri, pathWithin, project, version)
         == ServeJavadocs(lib, config, a2, requestUri, pathWithin, project, version)
  {
  }

  /** No guard against a latest equal to the request: the handler then
      redirects to the very URI it was asked for. */
  lemma SelfRedirect(
    lib: SemverLib, config: AppConfiguration, archives: Archives,
    requestUri: string, pathWithin: string, project: string, version: string)
    requires |version| > 0
    requires StartsWith(pathWithin, Root(project, version))
    requires var latest := ResolveLatest(lib, config, project, version);
             latest.Returned? && latest.value.Some? && latest.value.value.name == version
    ensures ServeJavadocs(lib, config, archives, requestUri, pathWithin, project, version) == Found(requestUri)
  {
  }

  /**
   For a request URI of the form `/{project}/{version}{rest}`, the redirect
   puts the latest name in the version segment and also rewrites every
   further occurrence of the version inside rest.
   */
  lemma RedirectRewritesEveryOccurrence(
    lib: SemverLib, config: AppConfiguration, archives: Archives,
    pathWithin: string, project: string, version: string, rest: string)
    requires IsRouteProject(project) && IsRouteVersionStart(version)
    requires StartsWith(pathWithin, Root(project, version))
    requires var latest := ResolveLatest(lib, config, project, version);
             latest.Returned? && latest.value.Some?
    ensures var latest := ResolveLatest(lib, config, project, version).value.value.name;
            ServeJavadocs(lib, config, archives, Root(project, version) + rest, pathWithin, project, version)
            == Found("/" + project + "/" + latest + ReplaceAll(rest, version, latest))
  {
    RootRewrite(project, version, rest, ResolveLatest(lib, config, project, version).value.value.name);
  }

  /** Rewriting a URI that starts with the root: the project part cannot
      hold the start of a version, so the first rewrite is the version
      segment itself. */
  lemma RootRewrite(project: string, version: string, rest: string, latest: string)
    requires IsRouteProject(project) && IsRouteVersionStart(version)
    ensures ReplaceAll(Root(project, version) + rest, version, latest)
         == "/" + project + "/" + latest + ReplaceAll(rest, version, latest)
  {
    var p := "/" + project + "/";
    assert Root(project, version) + rest == p + (version + rest);
    assert forall i | 0 <= i < |p| :: p[i] != version[0] by {
      forall i | 0 <= i < |p|
        ensures p[i] != version[0]
      {
        if 0 < i < |p| - 1 {
          assert p[i] == project[i - 1];
        }
      }
    }
    ReplaceAllSkipsPrefix(p, version + rest, version, latest);
    ReplaceAllLeading(rest, version, latest);
    assert p + (latest + ReplaceAll(rest, version, latest)) == "/" + project + "/" + latest + ReplaceAll(rest, version, latest);
  }

  /** An entry the archive holds is served with the cache and content type
      its own name selects. */
  lemma ServedEntry(archives: Archives, pathWithin: string, project: string, version: string, file: string)
    requires StartsWith(pathWithin, Root(project, version))
    requires InArchivePath(pathWithin, Root(project, version)) == file
    requires ArchiveKey(project, version) in archives && file in archives[ArchiveKey(project, version)]
    ensures ServeFromArchive(archives, pathWithin, project, version)
         == Ok(file, CacheFor(file), Inline, MarkerHeader, ContentType(FileName(file)))
  {
  }

  /**
   After the trailing-slash redirect, the follow-up request for
   `/{project}/{version}/` serves the archive's index.html with the long
   cache and no content type, when no version redirect applies.
   */
  lemma TrailingSlashLeadsToIndex(
    lib: SemverLib, config: AppConfiguration, archives: Archives, project: string, version: string)
    requires |version| > 0
    requires ResolveLatest(lib, config, project, version) == Returned(None)
    requires ArchiveKey(project, version) in archives
    requires "index.html" in archives[ArchiveKey(project, version)]
    ensures var next := RedirectToPathWithTrailingSlash(Root(project, version)).location;
            ServeJavadocs(lib, config, archives, next, next, project, version)
            == Ok("index.html", StaticsCache, Inline, MarkerHeader, None)
  {
    var root := Root(project, version);
    var next := root + "/";
    assert StartsWith(next, root) && InArchivePath(next, root) == "index.html" by {
      assert next[..|root|] == root;
    }
    IndexPageContentType();
    CacheForExamples();
    ServedEntry(archives, next, project, version, "index.html");
  }

  /**
   Any other remainder is served under its own name, leading '/' included;
   a style sheet gets the long cache and text/css.
   */
  lemma StyleSheetServed(
    lib: SemverLib, config: AppConfiguration, archives: Archives, project: string, version: string)
    requires |version| > 0
    requires ResolveLatest(lib, config, project, version) == Returned(None)
    requires ArchiveKey(project, version) in archives
    requires "/style.css" in archives[ArchiveKey(project, version)]
    ensures var uri := Root(project, version) + "/style.css";
            ServeJavadocs(lib, config, archives, uri, uri, project, version)
            == Ok("/style.css", StaticsCache, Inline, MarkerHeader, Some("text/css"))
  {
    var root := Root(project, version);
    var uri := root + "/style.css";
    assert StartsWith(uri, root) && InArchivePath(uri, root) == "/style.css" by {
      assert uri[..|root|] == root;
      assert uri[|root|..] == "/style.css";
    }
    StyleSheetContentType();
    CacheForExamples();
    ServedEntry(archives, uri, project, version, "/style.css");
  }

  /**
   The handler with the guard the redirect evidently wants: it redirects only
   when the latest version differs from the requested one, and otherwise
   serves the requested archive as it is.
   */
  function ServeJavadocsGuarded(
    lib: SemverLib, config: AppConfiguration, archives: Archives,
    requestUri: string, pathWithin: string, project: string, version: string): (r: Response)
    requires |version| > 0
    requires StartsWith(pathWithin, Root(project, version))
    ensures var latest := ResolveLatest(lib, config, project, version);
            && (r.ServerError? <==> latest.Thrown?)
            && (r.Found? <==> latest.Returned? && latest.value.Some? && latest.value.value.name != version)
    ensures r.Found? || r.ServerError? ==> r == ServeJavadocs(lib, config, archives, requestUri, pathWithin, project, version)
    ensures !r.Found? && !r.ServerError? ==> r == ServeFromArchive(archives, pathWithin, project, version)
  {
    match ResolveLatest(lib, config, project, version)
    case Thrown => ServerError
    case Returned(Some(latest)) =>
      if latest.name != version then Found(ReplaceAll(requestUri, version, latest.name))
      else ServeFromArchive(archives, pathWithin, project, version)
    case Returned(None) => ServeFromArchive(archives, pathWithin, project, version)
  }

  /** Two different segments followed by tails that are empty or start with
      '/' give different strings. */
  lemma DistinctSegments(v: string, rest: string, l: string, rest': string)
    requires IsSegment(v) && IsSegment(l) && v != l
    requires rest == [] || rest[0] == '/'
    requires rest' == [] || rest'[0] == '/'
    requires rest == [] <==> rest' == []
    ensures v + rest != l + rest'
  {
    if |v| == |l| {
      var i :| 0 <= i < |v| && v[i] != l[i];
      assert (v + rest)[i] != (l + rest')[i];
    } else if rest == [] {
      assert |v + rest| != |l + rest'|;
    } else if |v| < |l| {
      assert (v + rest)[|v|] != (l + rest')[|v|];
    } else {
      assert (v + rest)[|l|] != (l + rest')[|l|];
    }
  }

  /**
   The corrected handler never answers a request with a redirect to the same
   URI, provided the configured version names are single path segments.
   */
  lemma GuardedNeverRedirectsToItself(
    lib: SemverLib, config: AppConfiguration, archives: Archives,
    pathWithin: string, project: string, version: string, rest: string)
    requires IsRouteProject(project) && IsRouteVersionStart(version) && IsSegment(version)
    requires rest == [] || rest[0] == '/'
    requires StartsWith(pathWithin, Root(project, version))
    requires var latest := ResolveLatest(lib, config, project, version);
             latest.Returned? && latest.value.Some? ==> IsSegment(latest.value.value.name)
    ensures var uri := Root(project, version) + rest;
            var r := ServeJavadocsGuarded(lib, config, archives, uri, pathWithin, project, version);
            r.Found? ==> r.location != uri
  {
    var latest := ResolveLatest(lib, config, project, version);
    if latest.Returned? && latest.value.Some? && latest.value.value.name != version {
      RewrittenRootDiffers(project, version, rest, latest.value.value.name);
    }
  }

  /** Rewriting the version segment of a route-shaped URI to a different
      single segment changes the URI. */
  lemma RewrittenRootDiffers(project: string, version: string, rest: string, l: string)
    requires IsRouteProject(project) && IsRouteVersionStart(version) && IsSegment(version)
    requires IsSegment(l) && l != version
    requires rest == [] || rest[0] == '/'
    ensures ReplaceAll(Root(project, version) + rest, version, l) != Root(project, version) + rest
  {
    var rest' := ReplaceAll(rest, version, l);
    RootRewrite(project, version, rest, l);
    ReplaceAllKeepsLeadingSlash(rest, version, l);
    RenamedRootDiffers(project, version, rest, l, rest');
  }

  /** Replacing the version segment of a root by another segment changes the path. */
  lemma RenamedRootDiffers(project: string, version: string, rest: string, l: string, rest': string)
    requires IsSegment(version) && IsSegment(l) && l != version
    requires rest == [] || rest[0] == '/'
    requires rest' == [] || rest'[0] == '/'
    requires rest == [] <==> rest' == []
    ensures "/" + project + "/" + l + rest' != Root(project, version) + rest
  {
    var p := "/" + project + "/";
    DistinctSegments(version, rest, l, rest');
    PrefixCancels(p, version + rest, l + rest');
    assert Root(project, version) + rest == p + (version + rest);
    assert p + l + rest' == p + (l + rest');
  }

  /** Equal strings with a common prefix have equal remainders. */
  lemma PrefixCancels(p: string, a: string, b: string)
    requires a != b
    ensures p + a != p + b
  {
    assert (p + a)[|p|..] == a;
    assert (p + b)[|p|..] == b;
  }

  /**
   A request for a group's latest version itself, which the handler as
   written answers with a redirect to the same URI, is served by the
   corrected handler from its archive.
   */
  lemma GuardedServesLatestRequest(
    lib: SemverLib, config: AppConfiguration, archives: Archives,
    requestUri: string, pathWithin: string, project: string, version: string)
    requires |version| > 0
    requires StartsWith(pathWithin, Root(project, version))
    requires var latest := ResolveLatest(lib, config, project, version);
             latest.Returned? && latest.value.Some? && latest.value.value.name == version
    ensures ServeJavadocsGuarded(lib, config, archives, requestUri, pathWithin, project, version)
         == ServeFromArchive(archives, pathWithin, project, version)
  {
  }
}
