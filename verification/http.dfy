/**
 The response the controller builds and the metadata rules it applies to a
 served file: the cache policy chosen by the static-asset rule and the
 content type chosen by file-name suffix.
 */
module Http {
  import opened Wrappers
  import opened Strings

  /** Cache-Control: `max-age=<seconds>` or `no-cache`. */
  datatype CacheControl = MaxAge(seconds: nat) | NoCache

  /** Ten minutes, for everything that is not a static asset. */
  const DefaultCache: CacheControl := MaxAge(10 * 60)

  /** Seven days, for static assets. */
  const StaticsCache: CacheControl := MaxAge(7 * 24 * 60 * 60)

  /** The marker header every served file carries. */
  const MarkerHeader: (string, string) := ("X-JavaDucks", "Quack")

  /** The content disposition every served file carries. */
  const Inline: string := "inline"

  /**
   A controller response:
   - Found: 302 with a Location header;
   - Ok: 200 streaming the archive entry `file`;
   - NotFound: 404;
   - ServerError: an exception escaped the handler, which the framework
     answers with 500.
   */
  datatype Response =
    | Found(location: string)
    | Ok(file: string, cache: CacheControl, disposition: string,
         marker: (string, string), contentType: Option<string>)
    | NotFound(cache: CacheControl)
    | ServerError

  /** The static-asset rule: ends in .js, .png, .css or .html and does not
      mention search-index anywhere. */
  predicate IsStaticAsset(path: string) {
    && !Contains(path, "search-index")
    && (EndsWith(path, ".js") || EndsWith(path, ".png") || EndsWith(path, ".css") || EndsWith(path, ".html"))
  }

  /** The cache policy of a served file: the seven-day policy exactly when
      the static-asset pattern matches the path, ten minutes otherwise. */
  function CacheFor(path: string): (r: CacheControl)
    ensures r == StaticsCache <==> MatchesStaticsPattern(path)
    ensures r == DefaultCache <==> !MatchesStaticsPattern(path)
  {
    StaticSuffixIff(path);
    if IsStaticAsset(path) then StaticsCache else DefaultCache
  }

  /** One of the extensions the static-asset pattern lists. */
  predicate IsStaticExtension(ext: string) {
    ext == "js" || ext == "png" || ext == "css" || ext == "html"
  }

  /**
   What the pattern `^(?!.*search-index).*\.(js|png|css|html)$` matches under
   find(), read position by position on a path without line terminators:
   no index starts an occurrence of search-index, and some '.' is followed by
   exactly one of the listed extensions up to the end.
   */
  predicate MatchesStaticsPattern(path: string) {
    && (forall i: nat | i <= |path| :: !OccursAt(path, "search-index", i))
    && exists k | 0 <= k < |path| :: path[k] == '.' && IsStaticExtension(path[k + 1..])
  }

  /** A dot followed by `ext` up to the end is the suffix "." + ext. */
  lemma DotExtensionIsSuffix(path: string, ext: string)
    ensures EndsWith(path, "." + ext) <==> exists k | 0 <= k < |path| :: path[k] == '.' && path[k + 1..] == ext
  {
    var d := "." + ext;
    if EndsWith(path, d) {
      var k := |path| - |d|;
      assert path[k..] == d;
      assert path[k] == d[0] == '.';
      assert path[k + 1..] == path[k..][1..] == d[1..] == ext;
    }
    if exists k | 0 <= k < |path| :: path[k] == '.' && path[k + 1..] == ext {
      var k :| 0 <= k < |path| && path[k] == '.' && path[k + 1..] == ext;
      assert |path| - k == |d|;
      assert path[k..] == [path[k]] + path[k + 1..];
    }
  }

  /** A path ends in one of the four suffixes exactly when some '.' in it is
      followed by a listed extension up to the end. */
  lemma StaticSuffixIff(path: string)
    ensures (EndsWith(path, ".js") || EndsWith(path, ".png") || EndsWith(path, ".css") || EndsWith(path, ".html"))
        <==> exists k | 0 <= k < |path| :: path[k] == '.' && IsStaticExtension(path[k + 1..])
  {
    if EndsWith(path, ".js") {
      StaticSuffixGivesDot(path, "js");
    } else if EndsWith(path, ".png") {
      StaticSuffixGivesDot(path, "png");
    } else if EndsWith(path, ".css") {
      StaticSuffixGivesDot(path, "css");
    } else if EndsWith(path, ".html") {
      StaticSuffixGivesDot(path, "html");
    }
    if exists k | 0 <= k < |path| :: path[k] == '.' && IsStaticExtension(path[k + 1..]) {
      var k :| 0 <= k < |path| && path[k] == '.' && IsStaticExtension(path[k + 1..]);
      DotGivesStaticSuffix(path, k);
    }
  }

  /** A dot followed by a listed extension up to the end makes one of the four suffixes. */
  lemma DotGivesStaticSuffix(path: string, k: nat)
    requires k < |path| && path[k] == '.' && IsStaticExtension(path[k + 1..])
    ensures EndsWith(path, ".js") || EndsWith(path, ".png") || EndsWith(path, ".css") || EndsWith(path, ".html")
  {
    var e := path[k + 1..];
    assert path[k..] == "." + e;
    assert EndsWith(path, "." + e);
    assert "." + "js" == ".js" && "." + "png" == ".png" && "." + "css" == ".css" && "." + "html" == ".html";
  }

  /** A path ending in "." + ext, for a listed ext, has a dot the pattern accepts. */
  lemma StaticSuffixGivesDot(path: string, ext: string)
    requires IsStaticExtension(ext) && EndsWith(path, "." + ext)
    ensures exists k | 0 <= k < |path| :: path[k] == '.' && IsStaticExtension(path[k + 1..])
  {
    DotExtensionIsSuffix(path, ext);
  }

  /** The root page gets the long cache; the search index, although a .js
      file, gets the short one. */
  lemma CacheForExamples()
    ensures CacheFor("index.html") == StaticsCache
    ensures CacheFor("/search-index.js") == DefaultCache
    ensures CacheFor("/style.css") == StaticsCache
  {
    var index, search, style := "index.html", "/search-index.js", "/style.css";
    assert !Contains(index, "search-index") by {
      ContainsNeedsRoom(index, "search-index");
    }
    assert index[|index| - 5..] == ".html";
    assert search[1..13] == "search-index";
    assert OccursAt(search, "search-index", 1);
    assert !Contains(style, "search-index") by {
      ContainsNeedsRoom(style, "search-index");
    }
    assert style[|style| - 4..] == ".css";
  }

  /** The suffix table: file-name suffix and the media type it selects. */
  const MediaTypes: seq<(string, string)> := [
    (".css", "text/css"),
    (".js", "application/javascript"),
    (".zip", "application/zip")
  ]

  /**
   The loop over the table's entries in some iteration order: the media type
   of the first entry whose suffix ends the file name; none when no suffix
   does (there is no fallback type).
   */
  function SelectMediaType(entries: seq<(string, string)>, name: string): (r: Option<string>)
    ensures r.None? <==> forall i | 0 <= i < |entries| :: !EndsWith(name, entries[i].0)
    ensures r.Some? ==> exists i | 0 <= i < |entries| :: EndsWith(name, entries[i].0) && entries[i].1 == r.value
  {
    if |entries| == 0 then None
    else if EndsWith(name, entries[0].0) then Some(entries[0].1)
    else SelectMediaType(entries[1..], name)
  }

  /** No file name ends in two of the table's suffixes. */
  lemma SuffixesExclusive(name: string)
    ensures !(EndsWith(name, ".css") && EndsWith(name, ".js"))
    ensures !(EndsWith(name, ".css") && EndsWith(name, ".zip"))
    ensures !(EndsWith(name, ".js") && EndsWith(name, ".zip"))
  {
    var n := |name|;
    if EndsWith(name, ".css") {
      assert name[n - 1] == ".css"[3] == 's';
      assert name[n - 2] == ".css"[2] == 's';
    }
    if EndsWith(name, ".js") {
      assert name[n - 1] == ".js"[2] == 's';
      assert name[n - 2] == ".js"[1] == 'j';
    }
    if EndsWith(name, ".zip") {
      assert name[n - 1] == ".zip"[3] == 'p';
    }
  }

  /** All entries whose suffix ends the name carry the same media type. */
  predicate AgreeOn(entries: seq<(string, string)>, name: string) {
    forall i, j | 0 <= i < |entries| && 0 <= j < |entries| ::
      EndsWith(name, entries[i].0) && EndsWith(name, entries[j].0) ==> entries[i].1 == entries[j].1
  }

  /** Two iteration orders of the same entries select the same media type
      when the matching entries agree. */
  lemma SelectOrderIrrelevant(e1: seq<(string, string)>, e2: seq<(string, string)>, name: string)
    requires forall e :: e in e1 <==> e in e2
    requires AgreeOn(e1, name)
    ensures SelectMediaType(e1, name) == SelectMediaType(e2, name)
  {
    var r1 := SelectMediaType(e1, name);
    var r2 := SelectMediaType(e2, name);
    if r1.None? {
      forall j | 0 <= j < |e2|
        ensures !EndsWith(name, e2[j].0)
      {
        assert e2[j] in e1;
      }
    } else {
      var i :| 0 <= i < |e1| && EndsWith(name, e1[i].0) && e1[i].1 == r1.value;
      assert e1[i] in e2;
      var j :| 0 <= j < |e2| && EndsWith(name, e2[j].0) && e2[j].1 == r2.value;
      assert e2[j] in e1;
      var j' :| 0 <= j' < |e1| && e1[j'] == e2[j];
    }
  }

  /**
   The unordered table gives a deterministic answer: every iteration order of
   its entries selects the same media type.
   */
  lemma MediaTypeOrderIrrelevant(entries: seq<(string, string)>, name: string)
    requires forall e :: e in entries <==> e in MediaTypes
    ensures SelectMediaType(entries, name) == SelectMediaType(MediaTypes, name)
  {
    SuffixesExclusive(name);
    assert AgreeOn(MediaTypes, name);
    SelectOrderIrrelevant(MediaTypes, entries, name);
  }

  /** The table scanned in its written order, one entry at a time. */
  lemma SelectFromTable(name: string)
    ensures SelectMediaType(MediaTypes, name)
            == if EndsWith(name, ".css") then Some("text/css")
               else if EndsWith(name, ".js") then Some("application/javascript")
               else if EndsWith(name, ".zip") then Some("application/zip")
               else None
  {
    var t1 := MediaTypes[1..];
    var t2 := t1[1..];
    assert t2 == [(".zip", "application/zip")];
    assert t2[1..] == [];
    assert SelectMediaType(t2, name) == if EndsWith(name, ".zip") then Some("application/zip") else None;
    assert SelectMediaType(t1, name)
           == if EndsWith(name, ".js") then Some("application/javascript") else SelectMediaType(t2, name);
  }

  /** The content type of a served file name. */
  function ContentType(name: string): (r: Option<string>)
    ensures r == Some("text/css") <==> EndsWith(name, ".css")
    ensures r == Some("application/javascript") <==> EndsWith(name, ".js")
    ensures r == Some("application/zip") <==> EndsWith(name, ".zip")
    ensures r.None? <==> !EndsWith(name, ".css") && !EndsWith(name, ".js") && !EndsWith(name, ".zip")
  {
    SuffixesExclusive(name);
    SelectFromTable(name);
    assert "text/css"[0] != "application/javascript"[0];
    assert "text/css"[0] != "application/zip"[0];
    assert "application/javascript"[12] != "application/zip"[12];
    SelectMediaType(MediaTypes, name)
  }

  /**
   `name` is the segment of `path` that ends at index n: only '/' follows n,
   the character before n is not '/', and the character before the segment
   (if any) is '/'.
   */
  predicate NameEndsAt(path: string, name: string, n: nat) {
    && |name| <= n <= |path|
    && path[n - |name|..n] == name
    && (n == |name| || path[n - |name| - 1] == '/')
    && (n == 0 || path[n - 1] != '/')
    && forall i | n <= i < |path| :: path[i] == '/'
  }

  /** Path.getFileName of an archive path: its last segment, trailing '/'
      characters ignored. */
  function FileName(path: string): (r: string)
    ensures IsSegment(r)
    ensures exists n: nat :: NameEndsAt(path, r, n)
  {
    var t := TrimTrailingSlashes(path);
    var r := LastSegment(t);
    assert path[..|t|] == t;
    assert path[|t| - |r|..|t|] == t[|t| - |r|..];
    assert NameEndsAt(path, r, |t|);
    r
  }

  /** The root page has no listed suffix and gets no content type. */
  lemma IndexPageContentType()
    ensures ContentType(FileName("index.html")) == None
  {
    assert TrimTrailingSlashes("index.html") == "index.html";
    LastSegmentOfSegment("index.html");
  }

  /** A style sheet below the root gets text/css. */
  lemma StyleSheetContentType()
    ensures ContentType(FileName("/style.css")) == Some("text/css")
  {
    assert TrimTrailingSlashes("/style.css") == "/style.css";
    LastSegmentKeepsSuffix("/style.css", ".css");
    assert EndsWith("/style.css", ".css");
  }
}
