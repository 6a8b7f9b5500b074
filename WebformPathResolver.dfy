/**
  The Webform path resolver: a decorator over the jsonapi_frontend path
  resolver that, when the inner resolver does not resolve a path, classifies
  it as a Webform route (an alias whose internal target starts with "/form/")
  and answers with a non-headless "route" record that carries the absolute
  Drupal URL, so that a frontend proxies or redirects the request to Drupal.

  The class's seven injected services are read-only; they become the fields
  of `Services`, and every method of the class becomes a function of them.
  `Resolve` also returns the list of calls it made into those services.
 */
module WebformPathResolver {
  import opened Wrappers
  import opened PhpStrings

  /** Longest trimmed path, in bytes, that `NormalizePath` accepts. */
  const MaxPathLength: nat := 2048

  /** Internal paths of Webform routes start with this prefix. */
  const WebformRoutePrefix: string := "/form/"

  /** The module whose presence switches the decorator on. */
  const WebformModule: string := "webform"

  /** Keys read from the `jsonapi_frontend.settings` configuration object. */
  const LangcodeFallbackKey: string := "resolver.langcode_fallback"
  const DrupalBaseUrlKey: string := "drupal_base_url"

  /** The `resolved` entry of a resolution array: absent, a boolean, or some other PHP value. */
  datatype ResolvedEntry = Missing | Flag(b: bool) | NonBoolean

  /** Opaque nested arrays (the `entity` and `redirect` entries) of another resolver's record. */
  type Payload = map<string, string>

  /** The resolution array shared by all jsonapi_frontend resolvers. */
  datatype Record = Record(
    resolved: ResolvedEntry,
    kind: Option<string>,
    canonical: Option<string>,
    entity: Option<Payload>,
    redirect: Option<Payload>,
    jsonapiUrl: Option<string>,
    dataUrl: Option<string>,
    headless: bool,
    drupalUrl: Option<string>)

  /** The `Url` object the path validator returns; only its access check is used. */
  datatype Url = Url(accessible: bool)

  /**
    The injected services, as the values and functions the resolver reads:
    the inner resolver, `moduleExists`, both directions of the alias manager,
    `getUrlIfValid`, the `jsonapi_frontend.settings` values (`None` when a key
    is unset), the ids of the current content language and of the default
    language, and the scheme and host of the current request, if any.
   */
  datatype Services = Services(
    inner: (string, Option<string>) -> Record,
    moduleExists: string -> bool,
    pathByAlias: (string, string) -> Option<string>,
    aliasByPath: (string, string) -> Option<string>,
    urlIfValid: string -> Option<Url>,
    setting: string -> Option<string>,
    currentContentLanguage: string,
    defaultLanguage: string,
    currentRequest: Option<string>)

  /** One call into a service. */
  datatype Lookup =
    | InnerResolve(path: string, requested: Option<string>)
    | ModuleExists(name: string)
    | SettingGet(key: string)
    | CurrentLanguage
    | DefaultLanguage
    | PathByAlias(alias: string, langcode: string)
    | UrlIfValid(internal: string)
    | Access(internal: string)
    | AliasByPath(internal: string, langcode: string)
    | CurrentRequest

  /** A value together with the service calls made to compute it. */
  datatype Traced<T> = Traced(value: T, lookups: seq<Lookup>)

  predicate IsQueryOrFragmentMark(c: char) {
    c == '?' || c == '#'
  }

  /** The part of `s` before its first `?` or `#`: the independent reference for the two strippers. */
  function CutAtMark(s: string): (r: string)
    ensures |r| <= |s| && r == s[..|r|]
    ensures forall i :: 0 <= i < |r| ==> !IsQueryOrFragmentMark(r[i])
    ensures |r| < |s| ==> IsQueryOrFragmentMark(s[|r|])
  {
    if |s| == 0 || IsQueryOrFragmentMark(s[0]) then [] else [s[0]] + CutAtMark(s[1..])
  }

  /** True when `s` has no `?` and no `#`. */
  ghost predicate NoMarks(s: string) {
    forall i :: 0 <= i < |s| ==> !IsQueryOrFragmentMark(s[i])
  }

  /** True when no two consecutive characters of `s` are both `/`. */
  ghost predicate NoDoubleSlash(s: string) {
    forall i :: 0 < i < |s| ==> !(s[i - 1] == '/' && s[i] == '/')
  }

  /** The shape of a normalised path: rooted, no `//`, and a trailing `/` only on the root itself. */
  ghost predicate IsNormalPath(s: string) {
    && |s| > 0
    && s[0] == '/'
    && NoDoubleSlash(s)
    && (s[|s| - 1] == '/' ==> s == "/")
  }

  /** `s` with every `/` removed: what slash handling must leave untouched. */
  function WithoutSlashes(s: string): string {
    if |s| == 0 then [] else (if s[0] == '/' then [] else [s[0]]) + WithoutSlashes(s[1..])
  }

  /**
    The non-empty runs of bytes between slashes, in order: the segments a
    path names, whatever its slashes look like.
   */
  function Segments(s: string): (r: seq<string>)
    ensures |s| > 0 && s[0] != '/' ==> |r| > 0 && r[0] != [] && r[0][0] == s[0]
  {
    if |s| == 0 then []
    else
      var rest := Segments(s[1..]);
      if s[0] == '/' then rest
      else if |s| > 1 && s[1] != '/' then [[s[0]] + rest[0]] + rest[1..]
      else [[s[0]]] + rest
  }

  /** `$path = strstr($path, '#', TRUE) ?: ''` when `$path` holds a `#`: falsy "" and "0" become "". */
  function StripFragment(s: string): string {
    if '#' in s then
      var before := StrstrBefore(s, '#');
      if before.Some? && IsTruthy(before.value) then before.value else ""
    else s
  }

  /** `substr($path, 0, strpos($path, '?'))` when there is a `?`, else `$path`. */
  function StripQuery(s: string): string {
    match Strpos(s, '?')
    case None => s
    case Some(qpos) => s[..qpos]
  }

  /**
    `splitPathAndQuery`: trims, keeps what precedes the first `#`, then what
    precedes the first `?`; the second component is the always-empty query
    array.  Because of `?:`, a path that starts with "0#" splits to "".
   */
  function SplitPathAndQuery(path: string): (r: (string, map<string, string>))
    ensures r.1 == map[]
    ensures r.0 == if StartsWith(Trim(path), "0#") then "" else CutAtMark(Trim(path))
  {
    var trimmed := Trim(path);
    if trimmed == "" then ("", map[])
    else
      StripFragmentThenQuery(trimmed);
      (StripQuery(StripFragment(trimmed)), map[])
  }

  /** Fragment-then-query stripping cuts at the first mark, except that "0#..." gives "". */
  lemma StripFragmentThenQuery(s: string)
    ensures StripQuery(StripFragment(s)) == if StartsWith(s, "0#") then "" else CutAtMark(s)
  {
    if '#' in s {
      var before := StrstrBefore(s, '#').value;
      BeforeFragmentCut(s);
      if StartsWith(s, "0#") {
        ZeroBeforeFragment(s);
      } else if IsTruthy(before) {
        StripQueryIsCut(before);
      } else {
        assert s[0] == '#';
      }
    } else {
      StripQueryIsCut(s);
    }
  }

  lemma ZeroBeforeFragment(s: string)
    requires StartsWith(s, "0#")
    ensures StrstrBefore(s, '#') == Some("0")
  {
    assert s[0] == '0' && s[1] == '#';
    assert s[..1] == "0";
  }

  /** What precedes the first `#` has the same first mark as the whole string. */
  lemma BeforeFragmentCut(s: string)
    requires '#' in s
    ensures CutAtMark(StrstrBefore(s, '#').value) == CutAtMark(s)
  {
    var before := StrstrBefore(s, '#').value;
    CutAtMarkOfPrefix(s, |before|);
  }

  /** Cutting a prefix that reaches past the first mark finds the same mark. */
  lemma {:induction false} CutAtMarkOfPrefix(s: string, n: nat)
    requires |CutAtMark(s)| <= n <= |s|
    ensures CutAtMark(s[..n]) == CutAtMark(s)
  {
    if |s| > 0 && !IsQueryOrFragmentMark(s[0]) {
      assert n > 0;
      assert s[..n][1..] == s[1..][..n - 1];
      CutAtMarkOfPrefix(s[1..], n - 1);
    }
  }

  /** Without a `#`, what precedes the first `?` is what precedes the first mark. */
  lemma StripQueryIsCut(s: string)
    requires '#' !in s
    ensures StripQuery(s) == CutAtMark(s)
  {
  }

  /**
    True when `.*$` of PCRE without modifiers matches all of `r`: a run of
    non-newline characters, optionally followed by one final newline (which
    `$` matches in front of, and which is then left in the subject).
   */
  predicate DotStarToEnd(r: string) {
    '\n' !in r || ('\n' !in r[..|r| - 1] && r[|r| - 1] == '\n')
  }

  /**
    `preg_replace('/[?#].*$/', '', s)`: removes everything from the first `?`
    or `#` that is not followed by a newline before the end of the subject.
   */
  function StripQueryFragment(s: string): (r: string)
    ensures |r| <= |s|
  {
    if |s| == 0 then []
    else if IsQueryOrFragmentMark(s[0]) && DotStarToEnd(s[1..]) then
      (if '\n' in s[1..] then "\n" else "")
    else [s[0]] + StripQueryFragment(s[1..])
  }

  /** Without a newline in the subject, the regular expression cuts at the first mark. */
  lemma {:induction false} StripQueryFragmentWithoutNewline(s: string)
    requires '\n' !in s
    ensures StripQueryFragment(s) == CutAtMark(s)
  {
    if |s| > 0 {
      assert '\n' !in s[1..];
      if !IsQueryOrFragmentMark(s[0]) {
        StripQueryFragmentWithoutNewline(s[1..]);
      }
    }
  }

  /** A prefix without marks passes through the regular expression untouched. */
  lemma {:induction false} StripAfterMarkFreePrefix(w: string, rest: string)
    requires NoMarks(w)
    ensures StripQueryFragment(w + rest) == w + StripQueryFragment(rest)
  {
    if w != [] {
      var s := w + rest;
      assert s[0] == w[0] && !IsQueryOrFragmentMark(s[0]);
      assert s[1..] == w[1..] + rest;
      assert StripQueryFragment(s) == [w[0]] + StripQueryFragment(w[1..] + rest);
      assert NoMarks(w[1..]);
      StripAfterMarkFreePrefix(w[1..], rest);
      assert [w[0]] + (w[1..] + StripQueryFragment(rest)) == w + StripQueryFragment(rest);
    } else {
      assert w + rest == rest;
    }
  }

  /** A string without marks is left alone by the regular expression. */
  lemma StripQueryFragmentWithoutMarks(s: string)
    requires NoMarks(s)
    ensures StripQueryFragment(s) == s
  {
    StripAfterMarkFreePrefix(s, []);
    assert s + [] == s;
  }

  /** `preg_replace('#/+#', '/', s)`: every run of slashes becomes one slash. */
  function CollapseSlashes(s: string): (r: string)
    ensures |r| <= |s|
  {
    if |s| <= 1 then s
    else if s[0] == '/' && s[1] == '/' then CollapseSlashes(s[1..])
    else [s[0]] + CollapseSlashes(s[1..])
  }

  /**
    Collapsing leaves no `//`, keeps the first and last byte and every
    non-slash byte in order, and changes nothing that has no `//`.
   */
  lemma {:induction false} CollapseSlashesShape(s: string)
    ensures var r := CollapseSlashes(s);
      && NoDoubleSlash(r)
      && (|s| > 0 ==> |r| > 0 && r[0] == s[0] && r[|r| - 1] == s[|s| - 1])
      && WithoutSlashes(r) == WithoutSlashes(s)
      && (NoDoubleSlash(s) ==> r == s)
  {
    if |s| > 1 {
      var rest := CollapseSlashes(s[1..]);
      CollapseSlashesShape(s[1..]);
      assert WithoutSlashes(s) == (if s[0] == '/' then [] else [s[0]]) + WithoutSlashes(s[1..]);
      if !(s[0] == '/' && s[1] == '/') {
        assert WithoutSlashes([s[0]] + rest) == (if s[0] == '/' then [] else [s[0]]) + WithoutSlashes(rest) by {
          assert ([s[0]] + rest)[1..] == rest;
        }
      }
    }
  }

  /** A run of two slashes collapses exactly as one slash at the same place does. */
  lemma {:induction false} CollapseSlashesMergesRun(a: string, b: string)
    ensures CollapseSlashes(a + "//" + b) == CollapseSlashes(a + "/" + b)
  {
    var s := a + "//" + b;
    var t := a + "/" + b;
    if a == [] {
      assert s == "//" + b && t == "/" + b;
      assert s[1..] == t;
    } else {
      assert s[0] == a[0] == t[0];
      assert s[1] == t[1];
      assert s[1..] == a[1..] + "//" + b;
      assert t[1..] == a[1..] + "/" + b;
      CollapseSlashesMergesRun(a[1..], b);
    }
  }

  /** Collapsing slash runs keeps the segments of a path. */
  lemma {:induction false} CollapseSlashesKeepsSegments(s: string)
    ensures Segments(CollapseSlashes(s)) == Segments(s)
  {
    if |s| > 1 {
      var t := CollapseSlashes(s[1..]);
      CollapseSlashesKeepsSegments(s[1..]);
      if !(s[0] == '/' && s[1] == '/') {
        var r := [s[0]] + t;
        CollapseSlashesShape(s[1..]);
        assert r[1..] == t;
        assert r[1] == s[1];
      }
    }
  }

  /** One slash at the end adds no segment. */
  lemma {:induction false} SegmentsAppendSlash(s: string)
    ensures Segments(s + "/") == Segments(s)
  {
    var t := s + "/";
    if |s| == 0 {
      assert t[1..] == [];
    } else {
      assert t[1..] == s[1..] + "/";
      SegmentsAppendSlash(s[1..]);
      if |s| == 1 {
        assert s[1..] == [];
        assert t[1] == '/';
      } else {
        assert t[1] == s[1];
      }
    }
  }

  /** Rooting a path adds no segment. */
  lemma SegmentsOfRooted(s: string)
    ensures Segments("/" + s) == Segments(s)
  {
    assert ("/" + s)[1..] == s;
  }

  /**
    `normalizePath`: trim, reject empty or over-long input, strip query and
    fragment, root it, collapse slash runs, drop one trailing slash.  The
    result is "" (abort) or a normal path keeping every non-slash byte of the
    stripped input in order.
   */
  function NormalizePath(path: string): string {
    var trimmed := Trim(path);
    if trimmed == "" then ""
    else if |trimmed| > MaxPathLength then ""
    else
      var stripped := StripQueryFragment(trimmed);
      if stripped == "" then ""
      else
        var rooted := if stripped[0] != '/' then "/" + stripped else stripped;
        var collapsed := CollapseSlashes(rooted);
        if collapsed != "/" && EndsWithChar(collapsed, '/') then RTrimChar(collapsed, '/')
        else collapsed
  }

  /**
    What `normalizePath` promises: "" exactly when the trimmed input is empty,
    too long, or nothing but query and fragment; otherwise a normal path that
    keeps every non-slash byte of the stripped input, in order, and names the
    same segments.
   */
  lemma NormalizePathShape(path: string)
    ensures var r := NormalizePath(path);
      && (r == "" <==> Trim(path) == "" || |Trim(path)| > MaxPathLength || StripQueryFragment(Trim(path)) == "")
      && (r != "" ==> IsNormalPath(r))
      && (r != "" ==> WithoutSlashes(r) == WithoutSlashes(StripQueryFragment(Trim(path))))
      && (r != "" ==> Segments(r) == Segments(StripQueryFragment(Trim(path))))
      && |r| <= MaxPathLength + 1
  {
    var trimmed := Trim(path);
    if trimmed != "" && |trimmed| <= MaxPathLength {
      var stripped := StripQueryFragment(trimmed);
      if stripped != "" {
        var rooted := if stripped[0] != '/' then "/" + stripped else stripped;
        assert WithoutSlashes(rooted) == WithoutSlashes(stripped) && Segments(rooted) == Segments(stripped) by {
          if stripped[0] != '/' {
            assert rooted[1..] == stripped;
            SegmentsOfRooted(stripped);
          }
        }
        var collapsed := CollapseSlashes(rooted);
        CollapseSlashesShape(rooted);
        CollapseSlashesKeepsSegments(rooted);
        if collapsed != "/" && EndsWithChar(collapsed, '/') {
          DropTrailingSlash(collapsed);
        }
      }
    }
  }

  /** On a rooted path without `//` other than "/", `rtrim($p, '/')` drops exactly the one trailing slash. */
  lemma DropTrailingSlash(p: string)
    requires |p| > 1 && p[0] == '/' && NoDoubleSlash(p) && p[|p| - 1] == '/'
    ensures RTrimChar(p, '/') == p[..|p| - 1]
    ensures IsNormalPath(p[..|p| - 1])
    ensures WithoutSlashes(p[..|p| - 1]) == WithoutSlashes(p)
    ensures Segments(p[..|p| - 1]) == Segments(p)
  {
    assert p[|p| - 2] != '/';
    var q := p[..|p| - 1];
    assert RTrimChar(q, '/') == q;
    WithoutSlashesAppend(q, "/");
    SegmentsAppendSlash(q);
    assert q + "/" == p;
  }

  lemma {:induction false} WithoutSlashesAppend(a: string, b: string)
    ensures WithoutSlashes(a + b) == WithoutSlashes(a) + WithoutSlashes(b)
  {
    if |a| > 0 {
      assert (a + b)[1..] == a[1..] + b;
      WithoutSlashesAppend(a[1..], b);
    } else {
      assert a + b == b;
    }
  }

  /**
    `getEffectiveLangcode`: a non-empty argument verbatim; otherwise the
    current content language when `resolver.langcode_fallback` is "current",
    and the default language for any other value or when it is unset.
   */
  function EffectiveLangcode(services: Services, langcode: Option<string>): (r: Traced<string>)
    ensures langcode.Some? && langcode.value != "" ==> r == Traced(langcode.value, [])
    ensures !(langcode.Some? && langcode.value != "") ==>
      && |r.lookups| == 2 && r.lookups[0] == SettingGet(LangcodeFallbackKey)
      && ((r.lookups[1] == CurrentLanguage && r.value == services.currentContentLanguage)
          || (r.lookups[1] == DefaultLanguage && r.value == services.defaultLanguage))
  {
    if langcode.Some? && langcode.value != "" then Traced(langcode.value, [])
    else
      var configured := services.setting(LangcodeFallbackKey);
      var fallback := if configured.Some? then configured.value else "site_default";
      if fallback == "current" then
        Traced(services.currentContentLanguage, [SettingGet(LangcodeFallbackKey), CurrentLanguage])
      else
        Traced(services.defaultLanguage, [SettingGet(LangcodeFallbackKey), DefaultLanguage])
  }

  /** The base URL `getDrupalUrl` starts from, before trimming: configured, else the request's, else "". */
  function BaseUrl(services: Services): Traced<string> {
    var configured := services.setting(DrupalBaseUrlKey);
    if !IsEmptyValue(configured) then Traced(configured.value, [SettingGet(DrupalBaseUrlKey)])
    else
      match services.currentRequest
      case Some(schemeAndHost) => Traced(schemeAndHost, [SettingGet(DrupalBaseUrlKey), CurrentRequest])
      case None => Traced("", [SettingGet(DrupalBaseUrlKey), CurrentRequest])
  }

  /**
    `getDrupalUrl`: the base URL without its trailing slashes, then `path`.
    The base part never ends in `/`, so a rooted path never meets it in `//`.
   */
  function DrupalUrl(services: Services, path: string): (r: Traced<string>)
    ensures |path| <= |r.value| && r.value[|r.value| - |path|..] == path
    ensures var base := r.value[..|r.value| - |path|];
      && |base| <= |BaseUrl(services).value|
      && base == BaseUrl(services).value[..|base|]
      && (base == [] || base[|base| - 1] != '/')
      && forall i :: |base| <= i < |BaseUrl(services).value| ==> BaseUrl(services).value[i] == '/'
    ensures r.lookups == BaseUrl(services).lookups
  {
    var base := BaseUrl(services);
    var trimmed := RTrimChar(base.value, '/');
    RTrimCharShape(base.value, '/');
    assert (trimmed + path)[..|trimmed|] == trimmed;
    Traced(trimmed + path, base.lookups)
  }

  /** The record this decorator answers with for a Webform route. */
  function RouteRecord(canonical: string, drupalUrl: string): Record {
    Record(
      resolved := Flag(true),
      kind := Some("route"),
      canonical := Some(canonical),
      entity := None,
      redirect := None,
      jsonapiUrl := None,
      dataUrl := None,
      headless := false,
      drupalUrl := Some(drupalUrl))
  }

  /** The first two calls of every resolution that gets past an unresolved inner result. */
  function Prelude(path: string, langcode: Option<string>): seq<Lookup> {
    [InnerResolve(path, langcode), ModuleExists(WebformModule)]
  }

  /**
    `resolve`: ask the inner resolver; unless it resolved the path, try the
    Webform route chain, and at every failing step answer with the inner
    resolver's record unchanged.
   */
  function Resolve(services: Services, path: string, langcode: Option<string>): (r: Traced<Record>)
    ensures |r.lookups| > 0 && r.lookups[0] == InnerResolve(path, langcode)
    ensures r.value == services.inner(path, langcode) || r.value.resolved == Flag(true)
    ensures r.value != services.inner(path, langcode) ==>
      && r.value.kind == Some("route")
      && !r.value.headless
      && r.value.canonical.Some? && r.value.drupalUrl.Some?
      && r.value == RouteRecord(r.value.canonical.value, r.value.drupalUrl.value)
  {
    var inner := services.inner(path, langcode);
    if inner.resolved == Flag(true) then Traced(inner, [InnerResolve(path, langcode)])
    else if !services.moduleExists(WebformModule) then Traced(inner, Prelude(path, langcode))
    else
      var normalized := NormalizePath(SplitPathAndQuery(path).0);
      if normalized == "" then Traced(inner, Prelude(path, langcode))
      else
        var lang := EffectiveLangcode(services, langcode);
        var askedAlias := Prelude(path, langcode) + lang.lookups + [PathByAlias(normalized, lang.value)];
        var internal := services.pathByAlias(normalized, lang.value);
        if internal.None? || internal.value == "" then Traced(inner, askedAlias)
        else if !StartsWith(internal.value, WebformRoutePrefix) then Traced(inner, askedAlias)
        else
          var url := services.urlIfValid(internal.value);
          var askedUrl := askedAlias + [UrlIfValid(internal.value)];
          if url.None? then Traced(inner, askedUrl)
          else
            var askedAccess := askedUrl + [Access(internal.value)];
            if !url.value.accessible then Traced(inner, askedAccess)
            else
              var alias := services.aliasByPath(internal.value, lang.value);
              var askedCanonical := askedAccess + [AliasByPath(internal.value, lang.value)];
              var canonical := if alias.Some? && IsTruthy(alias.value) && alias.value != "" then alias.value else normalized;
              var drupalUrl := DrupalUrl(services, canonical);
              Traced(RouteRecord(canonical, drupalUrl.value), askedCanonical + drupalUrl.lookups)
  }
}
