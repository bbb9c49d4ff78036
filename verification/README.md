# javaducks documentation controller in Dafny

A model of the request-resolution logic of the javaducks documentation
server. The server answers requests for `/{project}/{version}/...` from
per-version documentation archives. When the project is configured and the
requested version falls into one of its version groups, it first redirects
the client to that group's latest version. The model covers:

- the trailing-slash redirect for `/{project}/{version}`;
- the case-insensitive project lookup over the configured endpoints;
- the version-group lookup, which compares only the LOOSE-parsed minor and
  fails when a LOOSE parse fails;
- the running-maximum "latest version" scan, including its patch-override
  quirk (a larger patch displaces a semver-greater pick);
- the handler for paths below `/{project}/{version}/`. It either redirects,
  or serves an entry of the literal (project, version) archive with the
  static-asset cache rule and the suffix content type, or answers 404. A
  failed version parse ends the request with a server error.

Layout, one module per concern:

| file | module | contents |
|---|---|---|
| wrappers.dfy | Wrappers | `Option`, the stand-in for Java's nullable references; `Throws`, a value or a thrown exception |
| strings.dfy | Strings | prefix/suffix/substring tests, `equalsIgnoreCase`, `String.replace`, path segments |
| catalog.dfy | Catalog | endpoints, version groups, versions; `SemverLib`, the semantic-version library as parameters |
| lookup.dfy | Lookup | `project` and `findFromVersion` |
| latest.dfy | Latest | `latestVersionFromGroup` and its fold reference |
| http.dfy | Http | the response datatype, cache policies, media-type table |
| controller.dfy | JavadocController | the two handlers and the properties that relate them |

External collaborators are parameters:

- The semver4j library is a `SemverLib` value. It has three functions of a
  version string: the LOOSE parse (a failure, or a minor that may be
  absent), the strict patch, and `isGreaterThan`. No property of the model
  depends on what these functions compute.
- The archive service is a map from (project, version) to the set of paths
  that are regular files in the mounted archive. A missing key means no
  archive.
- The request is given as plain strings: the request URI, the path within
  the handler mapping, and the captured `project` and `version`.

The model follows the code as written; in particular:

- The code redirects whenever a latest version resolves. There is no
  check that it differs from the requested version. See Findings.
- `String.replace` rewrites every occurrence of the version in the URI.
- Groups are matched on the minor component alone.
- When no suffix in the table matches, no content type is set.
- The content type is chosen by the first matching suffix in the table's
  iteration order. `Http.MediaTypeOrderIrrelevant` shows that every order
  gives the same answer.
- A remainder of exactly `/` becomes `index.html`; every other remainder is
  looked up as it is.

## Model

| member | source | states |
|---|---|---|
| JavadocController.RedirectToPathWithTrailingSlash | src/main/java/com/seiama/javaducks/controller/JavadocController.java:82-89 | the answer is always a 302 whose location is the request URI followed by a single '/'; the signature admits no catalog or archive |
| Strings.EqualsIgnoreCase | src/main/java/com/seiama/javaducks/controller/JavadocController.java:147 | two names are equal ignoring case exactly when their lower-cased forms are equal |
| Lookup.Project | src/main/java/com/seiama/javaducks/controller/JavadocController.java:145-152 | absent exactly when no endpoint name equals the requested name ignoring case; otherwise a configured endpoint whose name matches |
| Lookup.ProjectReturnsFirstMatch | src/main/java/com/seiama/javaducks/controller/JavadocController.java:146-149 | when index k holds the first matching endpoint, that endpoint is returned, whatever matches follow it |
| Lookup.ProjectFirstMatchExists | src/main/java/com/seiama/javaducks/controller/JavadocController.java:145-152 | a found endpoint is the first matching one of the list |
| Lookup.FindFromVersion | src/main/java/com/seiama/javaducks/controller/JavadocController.java:170-179 | throws exactly when some group's LOOSE parse (of the group version or of the requested version) fails before any group matched; no group exactly when every group parses and none has the requested LOOSE minor (an absent minor equals an absent minor); otherwise a configured group that matches |
| Lookup.FindFromVersionReturnsFirstMatch | src/main/java/com/seiama/javaducks/controller/JavadocController.java:171-176 | when index k holds the first matching group and every group before it parses, that group is returned, so a later matching group never is |
| Lookup.FindFromVersionFirstMatchExists | src/main/java/com/seiama/javaducks/controller/JavadocController.java:170-179 | a returned group is the first matching one, every group before it parsing without a match |
| Lookup.UnparseableVersionThrows | src/main/java/com/seiama/javaducks/controller/JavadocController.java:172-173 | a requested version whose LOOSE parse fails makes the lookup throw whenever the endpoint has a group |
| Lookup.FindFromVersionDependsOnlyOnMinor | src/main/java/com/seiama/javaducks/controller/JavadocController.java:172-174 | two requested versions with the same LOOSE parse, for instance differing only in the major, resolve to the same group or the same failure |
| Latest.Scan | src/main/java/com/seiama/javaducks/controller/JavadocController.java:158-166 | from any state of the loop, the final pick is absent only for an empty list, and no version after the pick is semver-greater or has a larger patch |
| Latest.LatestVersionFromGroup | src/main/java/com/seiama/javaducks/controller/JavadocController.java:154-167 | absent exactly when the group has no versions; otherwise one of its versions, the only one for a singleton, with no later version semver-greater or of larger patch |
| Latest.ScanSnoc | src/main/java/com/seiama/javaducks/controller/JavadocController.java:158-166 | appending a version to the list adds exactly one more step of the displacement test after the shorter scan |
| Latest.LatestMatchesFold | src/main/java/com/seiama/javaducks/controller/JavadocController.java:158-166 | the scan agrees on every list with a left fold of the three-way displacement test |
| Latest.PatchOverridesSemverOrder | src/main/java/com/seiama/javaducks/controller/JavadocController.java:161 | for two versions [a, b] with patch(b) > patch(a), b is returned even when a is semver-greater |
| Http.CacheFor | src/main/java/com/seiama/javaducks/controller/JavadocController.java:62-64 | the seven-day cache is chosen exactly for paths the statics pattern finds: no occurrence of search-index anywhere, and some '.' followed by exactly js, png, css or html up to the end |
| Http.CacheForExamples | src/main/java/com/seiama/javaducks/controller/JavadocController.java:124 | index.html and /style.css get seven days and /search-index.js gets ten minutes |
| Http.IndexPageContentType | src/main/java/com/seiama/javaducks/controller/JavadocController.java:128-134 | index.html matches no suffix of the table, so no content type is set |
| Http.StyleSheetContentType | src/main/java/com/seiama/javaducks/controller/JavadocController.java:128-134 | the file name of /style.css ends in .css, so text/css is set |
| Http.SelectMediaType | src/main/java/com/seiama/javaducks/controller/JavadocController.java:129-134 | the entry loop yields nothing exactly when no entry's suffix ends the name; otherwise the media type of an entry whose suffix does |
| Http.SuffixesExclusive | src/main/java/com/seiama/javaducks/controller/JavadocController.java:66-70 | no file name ends in two of .css, .js and .zip |
| Http.MediaTypeOrderIrrelevant | src/main/java/com/seiama/javaducks/controller/JavadocController.java:66-70 | every iteration order of the unordered table selects the same media type |
| Http.ContentType | src/main/java/com/seiama/javaducks/controller/JavadocController.java:128-134 | text/css exactly for .css, application/javascript exactly for .js, application/zip exactly for .zip, and no content type otherwise |
| Http.FileName | src/main/java/com/seiama/javaducks/controller/JavadocController.java:128 | the file name contains no '/' and is the whole last segment of the path: preceded by '/' or the start, and followed only by the trailing '/' characters |
| Strings.LastSegmentKeepsSuffix | src/main/java/com/seiama/javaducks/controller/JavadocController.java:128 | a suffix without '/' ends the last segment of a string exactly when it ends the string itself |
| JavadocController.InArchivePath | src/main/java/com/seiama/javaducks/controller/JavadocController.java:117-120 | a remainder of exactly '/' after the root becomes index.html; otherwise root + result is the request path, so the remainder is kept with its leading '/' |
| JavadocController.ResolveLatest | src/main/java/com/seiama/javaducks/controller/JavadocController.java:99-105 | throws exactly when the project is found and the group lookup throws; a latest version resolves exactly when the project is found, a group is found and that group lists a version, and it is then the latest version of the first matching group of the first matching endpoint |
| JavadocController.ServeFromArchive | src/main/java/com/seiama/javaducks/controller/JavadocController.java:113-141 | 200 exactly when the literal (project, version) archive exists and holds the in-archive path as a regular file, with the static-asset cache, inline disposition, the X-JavaDucks marker and the suffix content type; otherwise 404 with no-cache |
| JavadocController.ServeJavadocs | src/main/java/com/seiama/javaducks/controller/JavadocController.java:94-142 | a server error exactly when the version lookup throws; 302 exactly when a latest version resolves, to the request URI with every occurrence of the version replaced by the latest name; otherwise the archive answer |
| JavadocController.UnparseableVersionFails | src/main/java/com/seiama/javaducks/controller/JavadocController.java:102-104 | a requested version whose LOOSE parse fails, for a configured project with a version group, makes the group lookup at line 102 throw, so the request gets a server error and never reaches the archive |
| JavadocController.RedirectConsultsNoArchive | src/main/java/com/seiama/javaducks/controller/JavadocController.java:99-111 | when the redirect fires, the response is the same for any archives |
| JavadocController.ArchiveLookedUpByLiteralKey | src/main/java/com/seiama/javaducks/controller/JavadocController.java:115 | two archive services that agree on the requested (project, version) give the same response |
| JavadocController.SelfRedirect | src/main/java/com/seiama/javaducks/controller/JavadocController.java:105-108 | when the latest name equals the requested version, the handler redirects to the unchanged request URI |
| Strings.ReplaceAll | src/main/java/com/seiama/javaducks/controller/JavadocController.java:107 | replacing a string by itself changes nothing, and a string that starts with the target starts with the replacement afterwards |
| Strings.ReplaceAllFirstOccurrence | src/main/java/com/seiama/javaducks/controller/JavadocController.java:107 | when index k holds the first occurrence of the target, the text before k is copied, the occurrence becomes the replacement, and the text after it is rewritten in the same way; with ReplaceAllAbsent this fixes the result for every string |
| Strings.ReplaceAllLeading | src/main/java/com/seiama/javaducks/controller/JavadocController.java:107 | after an occurrence is replaced, the scan continues right after it, so following occurrences are replaced too |
| Strings.ReplaceAllAbsent | src/main/java/com/seiama/javaducks/controller/JavadocController.java:107 | a URI without the version is left unchanged |
| Strings.ReplaceAllSkipsPrefix | src/main/java/com/seiama/javaducks/controller/JavadocController.java:107 | a prefix none of whose characters can start the version is copied, and the rest is rewritten on its own |
| Strings.ReplaceAllKeepsLeadingSlash | src/main/java/com/seiama/javaducks/controller/JavadocController.java:107 | for a version that does not start with '/', a remainder that is empty or starts with '/' stays so after rewriting |
| JavadocController.RedirectRewritesEveryOccurrence | src/main/java/com/seiama/javaducks/controller/JavadocController.java:107 | for a URI /{project}/{version}{rest}, the location carries the latest name in the version segment, and every occurrence of the version in rest is rewritten too |
| JavadocController.TrailingSlashLeadsToIndex | src/main/java/com/seiama/javaducks/controller/JavadocController.java:118-119 | the follow-up to the trailing-slash redirect serves index.html with the seven-day cache and no content type when no version redirect applies |
| JavadocController.StyleSheetServed | src/main/java/com/seiama/javaducks/controller/JavadocController.java:121-134 | /style.css is served under its own name with the seven-day cache and text/css |
| JavadocController.ServeJavadocsGuarded | src/main/java/com/seiama/javaducks/controller/JavadocController.java:105-108 | corrected handler: redirects exactly when a latest version resolves and differs from the request; otherwise the answer of the handler as written |
| JavadocController.GuardedServesLatestRequest | src/main/java/com/seiama/javaducks/controller/JavadocController.java:105-108 | corrected handler: a request for the latest version itself is served from its archive |
| JavadocController.GuardedNeverRedirectsToItself | src/main/java/com/seiama/javaducks/controller/JavadocController.java:105-108 | for route-shaped URIs and single-segment version names, the corrected handler never redirects to the request URI itself |

## Left out

- Spring MVC plumbing is not modelled: route registration, the servlet request, `ResponseEntity` building and streaming the file body. A response is the `Http.Response` datatype. An exception escaping the handler is the `ServerError` response.
- JavadocController.InArchivePath, JavadocController.ServeFromArchive, JavadocController.ServeJavadocs: the path within the handler mapping is taken to start with `/{project}/{version}`. The code only cuts that path at the length of the root; a raw path whose segments decode to the captured variables (for example `/proj/1%2E2/x` for version "1.2") is outside the model.
- Matching of the `{project}` and `{version}` route patterns is left to the framework. The handlers take the captured strings. Lemmas that need route facts state them as preconditions: a non-empty a-z project; a version that starts with a digit or '.' and contains no '/'.
- semver4j parsing and comparison are not modelled. They are the parameters of `SemverLib`. A failing LOOSE parse is modelled as a failure outcome. The exception a strict parse throws on a malformed configured version is not modelled: the strict parse is taken to succeed on every configured version name.
- JavadocController.ServeJavadocs: the redirect location is taken to be valid URI text. `URI.create` throws on text that is not, for example a latest version name with a space or a stray '%', and that exception would end the request with a server error; the model answers the redirect.
- `JavadocService` and the zip file system are not part of this model. They are the archive map. Zip path normalisation (for example collapsing repeated '/') is left to that map, which sees the raw in-archive path.
- Strings.EqualsIgnoreCase: case mapping covers ASCII letters only. Java maps all Unicode letters.
- Strings are sequences of Unicode scalar values. Java's UTF-16 lengths and lone surrogates are not represented; the route strings are ASCII.
- Http.CacheFor: the static-asset rule is stated with plain substring and suffix tests. The regular expression also lets `$` match before a final line terminator and stops `.` at line terminators, so the rule differs for paths that contain line terminators.
- Http.FileName: takes the last segment after trailing '/' characters are dropped. A path with no name, such as "/", yields the empty name and not a null file name.
- The keys of the configured version-group map are not modelled. Resolution uses only the values, in the map's iteration order.
- The OpenAPI configuration and the namespaces response record are not modelled. They are library glue and a data record with no behaviour.

## Findings

| source | as written | input that shows it | evidently intended | confidence | as-written member | corrected member |
|---|---|---|---|---|---|---|
| src/main/java/com/seiama/javaducks/controller/JavadocController.java:105-108 | redirects whenever a latest version resolves, even when it is the requested version | group 1.2 whose latest is 1.2.9, request /proj/1.2.9/index.html: the answer is 302 to /proj/1.2.9/index.html, which loops | redirect only when the latest differs from the requested version | medium, not executed | JavadocController.SelfRedirect | JavadocController.GuardedNeverRedirectsToItself |
