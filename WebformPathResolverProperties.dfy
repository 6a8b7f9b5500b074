/**
  What the Webform path resolver promises: pass-through of the inner result
  on every failure with no later service calls, the shape of the route
  record on success, the language fallback rule, the composition of the
  Drupal URL, and the shape of normalised paths.
 */
module WebformPathResolverProperties {
  import opened Wrappers
  import opened PhpStrings
  import opened WebformPathResolver

  /** The normalised path portion of the request path, as `resolve` computes it. */
  function NormalizedRequest(path: string): string {
    NormalizePath(SplitPathAndQuery(path).0)
  }

  /** The checks before the alias lookup pass: not resolved by the inner resolver, Webform installed, a usable path. */
  ghost predicate ReachesAliasLookup(services: Services, path: string, langcode: Option<string>) {
    && services.inner(path, langcode).resolved != Flag(true)
    && services.moduleExists(WebformModule)
    && NormalizedRequest(path) != ""
  }

  /** The internal path the alias store gives for the normalised request path. */
  function InternalTarget(services: Services, path: string, langcode: Option<string>): Option<string> {
    services.pathByAlias(NormalizedRequest(path), EffectiveLangcode(services, langcode).value)
  }

  /** The service calls up to and including the alias lookup. */
  function LookupsThroughAlias(services: Services, path: string, langcode: Option<string>): seq<Lookup> {
    var lang := EffectiveLangcode(services, langcode);
    Prelude(path, langcode) + lang.lookups + [PathByAlias(NormalizedRequest(path), lang.value)]
  }

  /** A non-empty string under the Webform route prefix. */
  predicate IsWebformTarget(internal: Option<string>) {
    internal.Some? && internal.value != "" && StartsWith(internal.value, WebformRoutePrefix)
  }

  /** Every step of the chain succeeds, so the decorator answers with its own record. */
  ghost predicate Resolvable(services: Services, path: string, langcode: Option<string>) {
    && ReachesAliasLookup(services, path, langcode)
    && IsWebformTarget(InternalTarget(services, path, langcode))
    && services.urlIfValid(InternalTarget(services, path, langcode).value).Some?
    && services.urlIfValid(InternalTarget(services, path, langcode).value).value.accessible
  }

  /** The canonical path: the alias for the internal path when PHP sees it as true, else the normalised request path. */
  function CanonicalPath(alias: Option<string>, normalized: string): string {
    if alias.Some? && IsTruthy(alias.value) then alias.value else normalized
  }

  /** The number of calls to the language manager in `lookups`. */
  function LanguageLookups(lookups: seq<Lookup>): nat {
    multiset(lookups)[CurrentLanguage] + multiset(lookups)[DefaultLanguage]
  }

  // ---------------------------------------------------------------------
  // Pass-through

  /** An inner result whose `resolved` is exactly TRUE is returned unchanged, after no other call. */
  lemma ResolvedInnerPassesThrough(services: Services, path: string, langcode: Option<string>)
    requires services.inner(path, langcode).resolved == Flag(true)
    ensures Resolve(services, path, langcode) == Traced(services.inner(path, langcode), [InnerResolve(path, langcode)])
  {
  }

  /** Without the webform module every request gets the inner result, and only the first two calls happen. */
  lemma MissingWebformPassesThrough(services: Services, path: string, langcode: Option<string>)
    requires !services.moduleExists(WebformModule)
    ensures Resolve(services, path, langcode).value == services.inner(path, langcode)
    ensures services.inner(path, langcode).resolved != Flag(true) ==>
      Resolve(services, path, langcode).lookups == Prelude(path, langcode)
  {
  }

  /** A path that normalises to "" gets the inner result, and neither language nor alias store is asked. */
  lemma UnusablePathPassesThrough(services: Services, path: string, langcode: Option<string>)
    requires services.inner(path, langcode).resolved != Flag(true)
    requires services.moduleExists(WebformModule)
    requires NormalizedRequest(path) == ""
    ensures Resolve(services, path, langcode) == Traced(services.inner(path, langcode), Prelude(path, langcode))
  {
  }

  /** A path longer than 2048 bytes after trimming never reaches the alias store. */
  lemma TooLongPathSkipsAliasStore(services: Services, path: string, langcode: Option<string>)
    requires services.inner(path, langcode).resolved != Flag(true)
    requires services.moduleExists(WebformModule)
    requires NoMarks(path) && |Trim(path)| > MaxPathLength
    ensures Resolve(services, path, langcode) == Traced(services.inner(path, langcode), Prelude(path, langcode))
  {
    TrimKeepsNoMarks(path);
    TrimIdempotent(path);
    assert SplitPathAndQuery(path).0 == Trim(path);
    assert NormalizedRequest(path) == "";
    UnusablePathPassesThrough(services, path, langcode);
  }

  /** `trim` only removes characters, so a path without marks stays without them. */
  lemma TrimKeepsNoMarks(path: string)
    requires NoMarks(path)
    ensures NoMarks(Trim(path))
    ensures CutAtMark(Trim(path)) == Trim(path)
    ensures !StartsWith(Trim(path), "0#")
  {
    var l := TrimLeft(path);
    TrimLeftShape(path);
    TrimRightShape(l);
    assert NoMarks(l) by {
      forall i | 0 <= i < |l| ensures !IsQueryOrFragmentMark(l[i]) {
        assert l[i] == path[|path| - |l| + i];
      }
    }
    var t := TrimRight(l);
    assert NoMarks(t) by {
      forall i | 0 <= i < |t| ensures !IsQueryOrFragmentMark(t[i]) {
        assert t[i] == l[i];
      }
    }
    CutAtMarkAt(t, |t|);
  }

  /**
    A string whose first byte is not a trim character keeps, under `trim`,
    every byte up to and including its first mark: a mark is not a trim
    character, so only bytes after it can be trimmed.
   */
  lemma TrimKeepsUpToMark(g: string, k: nat)
    requires k < |g| && !IsTrimChar(g[0]) && IsQueryOrFragmentMark(g[k])
    ensures |Trim(g)| > k && Trim(g)[..k + 1] == g[..k + 1]
  {
    assert TrimLeft(g) == g;
    TrimRightShape(g);
  }

  /** `CutAtMark` stops at `n` when `s` has no mark before `n` and a mark (or its end) at `n`. */
  lemma {:induction false} CutAtMarkAt(s: string, n: nat)
    requires n <= |s| && NoMarks(s[..n]) && (n < |s| ==> IsQueryOrFragmentMark(s[n]))
    ensures CutAtMark(s) == s[..n]
  {
  }

  /** An alias lookup that gives NULL or "" ends the chain with the inner result. */
  lemma AliasMissPassesThrough(services: Services, path: string, langcode: Option<string>)
    requires ReachesAliasLookup(services, path, langcode)
    requires InternalTarget(services, path, langcode).None? || InternalTarget(services, path, langcode).value == ""
    ensures Resolve(services, path, langcode)
      == Traced(services.inner(path, langcode), LookupsThroughAlias(services, path, langcode))
  {
  }

  /** An internal path outside "/form/" ends the chain with the inner result; the path validator is never asked. */
  lemma NonWebformTargetPassesThrough(services: Services, path: string, langcode: Option<string>)
    requires ReachesAliasLookup(services, path, langcode)
    requires InternalTarget(services, path, langcode).Some?
    requires !StartsWith(InternalTarget(services, path, langcode).value, WebformRoutePrefix)
    ensures Resolve(services, path, langcode)
      == Traced(services.inner(path, langcode), LookupsThroughAlias(services, path, langcode))
  {
  }

  /** A Webform target the path validator rejects ends the chain with the inner result. */
  lemma InvalidRoutePassesThrough(services: Services, path: string, langcode: Option<string>)
    requires ReachesAliasLookup(services, path, langcode)
    requires IsWebformTarget(InternalTarget(services, path, langcode))
    requires services.urlIfValid(InternalTarget(services, path, langcode).value).None?
    ensures var internal := InternalTarget(services, path, langcode).value;
      Resolve(services, path, langcode)
      == Traced(services.inner(path, langcode), LookupsThroughAlias(services, path, langcode) + [UrlIfValid(internal)])
  {
  }

  /**
    A route the current user may not access ends the chain with the inner
    result, exactly as a route that does not exist: the record is the same.
   */
  lemma AccessDeniedPassesThrough(services: Services, path: string, langcode: Option<string>)
    requires ReachesAliasLookup(services, path, langcode)
    requires IsWebformTarget(InternalTarget(services, path, langcode))
    requires services.urlIfValid(InternalTarget(services, path, langcode).value) == Some(Url(false))
    ensures var internal := InternalTarget(services, path, langcode).value;
      Resolve(services, path, langcode)
      == Traced(services.inner(path, langcode),
                 LookupsThroughAlias(services, path, langcode) + [UrlIfValid(internal)] + [Access(internal)])
  {
  }

  // ---------------------------------------------------------------------
  // Success

  /**
    When every check passes the answer is a resolved, non-headless route
    record with no entity, redirect or JSON:API fields, whose canonical path
    is the truthy alias of the internal path or else the normalised request
    path, and whose Drupal URL is the trimmed base URL followed by it.
   */
  lemma WebformRouteResolves(services: Services, path: string, langcode: Option<string>)
    requires Resolvable(services, path, langcode)
    ensures
      var lang := EffectiveLangcode(services, langcode);
      var internal := InternalTarget(services, path, langcode).value;
      var canonical := CanonicalPath(services.aliasByPath(internal, lang.value), NormalizedRequest(path));
      var r := Resolve(services, path, langcode);
      && r.value.resolved == Flag(true)
      && r.value.kind == Some("route")
      && r.value.headless == false
      && r.value.entity.None? && r.value.redirect.None?
      && r.value.jsonapiUrl.None? && r.value.dataUrl.None?
      && r.value.canonical == Some(canonical)
      && r.value.drupalUrl == Some(RTrimChar(BaseUrl(services).value, '/') + canonical)
      && r.lookups == LookupsThroughAlias(services, path, langcode)
                      + [UrlIfValid(internal)] + [Access(internal)] + [AliasByPath(internal, lang.value)]
                      + BaseUrl(services).lookups
  {
  }

  /** The decision as a whole: the route record exactly when every step passes, otherwise the inner result. */
  lemma ResolveCharacterised(services: Services, path: string, langcode: Option<string>)
    ensures var inner := services.inner(path, langcode);
      var r := Resolve(services, path, langcode);
      && (inner.resolved == Flag(true) || !Resolvable(services, path, langcode) ==> r.value == inner)
      && (inner.resolved != Flag(true) ==> (r.value.resolved == Flag(true) <==> Resolvable(services, path, langcode)))
  {
    var inner := services.inner(path, langcode);
    if Resolvable(services, path, langcode) {
      WebformRouteResolves(services, path, langcode);
    } else if inner.resolved != Flag(true) && services.moduleExists(WebformModule) && NormalizedRequest(path) != "" {
      var internal := InternalTarget(services, path, langcode);
      if internal.None? || internal.value == "" {
        AliasMissPassesThrough(services, path, langcode);
      } else if !StartsWith(internal.value, WebformRoutePrefix) {
        NonWebformTargetPassesThrough(services, path, langcode);
      } else if services.urlIfValid(internal.value).None? {
        InvalidRoutePassesThrough(services, path, langcode);
      } else {
        AccessDeniedPassesThrough(services, path, langcode);
      }
    }
  }

  /** A falsy alias ("" or "0", or none) falls back to the normalised request path, which is rooted. */
  lemma CanonicalFallsBackToRequestPath(alias: Option<string>, path: string)
    requires alias.None? || alias.value == "" || alias.value == "0"
    requires NormalizedRequest(path) != ""
    ensures CanonicalPath(alias, NormalizedRequest(path)) == NormalizedRequest(path)
    ensures |CanonicalPath(alias, NormalizedRequest(path))| > 0 && CanonicalPath(alias, NormalizedRequest(path))[0] == '/'
  {
    NormalizePathShape(SplitPathAndQuery(path).0);
  }

  /** `resolve` keeps the source's redundant `!== ''` guard; it adds nothing to PHP truthiness. */
  lemma CanonicalGuardIsTruthiness(alias: Option<string>, normalized: string)
    ensures CanonicalPath(alias, normalized)
      == (if alias.Some? && IsTruthy(alias.value) && alias.value != "" then alias.value else normalized)
  {
  }

  // ---------------------------------------------------------------------
  // Language fallback

  /**
    A non-empty language code is used verbatim with no call; otherwise the
    fallback setting is read and exactly one language is looked up: the
    current content language for "current", the default one for anything
    else or when unset.
   */
  lemma EffectiveLangcodeRule(services: Services, langcode: Option<string>)
    ensures var r := EffectiveLangcode(services, langcode);
      && (langcode.Some? && langcode.value != "" ==> r.value == langcode.value && LanguageLookups(r.lookups) == 0)
      && (!(langcode.Some? && langcode.value != "") ==>
            && LanguageLookups(r.lookups) == 1
            && (CurrentLanguage in r.lookups <==> services.setting(LangcodeFallbackKey) == Some("current"))
            && (DefaultLanguage in r.lookups <==> services.setting(LangcodeFallbackKey) != Some("current"))
            && r.value == if services.setting(LangcodeFallbackKey) == Some("current")
                          then services.currentContentLanguage else services.defaultLanguage)
  {
  }

  /** Once the alias store is reached, the whole resolution asks the language manager once, or never when a code is given. */
  lemma ResolveAsksLanguageAtMostOnce(services: Services, path: string, langcode: Option<string>)
    requires ReachesAliasLookup(services, path, langcode)
    ensures LanguageLookups(Resolve(services, path, langcode).lookups)
      == if langcode.Some? && langcode.value != "" then 0 else 1
  {
    var internal := InternalTarget(services, path, langcode);
    var upTo := LookupsThroughAlias(services, path, langcode);
    LanguageLookupsThroughAlias(services, path, langcode);
    if internal.None? || internal.value == "" {
      AliasMissPassesThrough(services, path, langcode);
    } else if !StartsWith(internal.value, WebformRoutePrefix) {
      NonWebformTargetPassesThrough(services, path, langcode);
    } else if services.urlIfValid(internal.value).None? {
      InvalidRoutePassesThrough(services, path, langcode);
      LanguageLookupsAppendOther(upTo, UrlIfValid(internal.value));
    } else if !services.urlIfValid(internal.value).value.accessible {
      AccessDeniedPassesThrough(services, path, langcode);
      LanguageLookupsAppendOther(upTo, UrlIfValid(internal.value));
      LanguageLookupsAppendOther(upTo + [UrlIfValid(internal.value)], Access(internal.value));
    } else {
      WebformRouteResolves(services, path, langcode);
      var lang := EffectiveLangcode(services, langcode);
      var asked := upTo + [UrlIfValid(internal.value)] + [Access(internal.value)];
      LanguageLookupsAppendOther(upTo, UrlIfValid(internal.value));
      LanguageLookupsAppendOther(upTo + [UrlIfValid(internal.value)], Access(internal.value));
      LanguageLookupsAppendOther(asked, AliasByPath(internal.value, lang.value));
      LanguageLookupsAppendBaseUrl(asked + [AliasByPath(internal.value, lang.value)], services);
    }
  }

  /** A call that is not to the language manager does not change the count. */
  lemma LanguageLookupsAppendOther(head: seq<Lookup>, call: Lookup)
    requires !call.CurrentLanguage? && !call.DefaultLanguage?
    ensures LanguageLookups(head + [call]) == LanguageLookups(head)
  {
    assert multiset(head + [call]) == multiset(head) + multiset{call};
  }

  /** Computing the base URL reads configuration and the request, never the language manager. */
  lemma LanguageLookupsAppendBaseUrl(head: seq<Lookup>, services: Services)
    ensures LanguageLookups(head + BaseUrl(services).lookups) == LanguageLookups(head)
  {
    assert multiset(head + BaseUrl(services).lookups) == multiset(head) + multiset(BaseUrl(services).lookups);
  }

  /** Up to the alias lookup, the language manager is asked once, or never when a code is given. */
  lemma LanguageLookupsThroughAlias(services: Services, path: string, langcode: Option<string>)
    ensures LanguageLookups(LookupsThroughAlias(services, path, langcode))
      == if langcode.Some? && langcode.value != "" then 0 else 1
  {
    EffectiveLangcodeRule(services, langcode);
  }

  // ---------------------------------------------------------------------
  // Drupal URL

  /** The base is the configured URL unless PHP's `empty()` holds of it, then the request's, then "". */
  lemma BaseUrlChoice(services: Services)
    ensures var configured := services.setting(DrupalBaseUrlKey);
      BaseUrl(services).value ==
        if configured.Some? && configured.value != "" && configured.value != "0" then configured.value
        else if services.currentRequest.Some? then services.currentRequest.value
        else ""
    ensures BaseUrl(services).lookups[0] == SettingGet(DrupalBaseUrlKey)
    ensures CurrentRequest in BaseUrl(services).lookups <==> IsEmptyValue(services.setting(DrupalBaseUrlKey))
  {
  }

  /** With no usable base URL and no request, the Drupal URL is the path alone. */
  lemma DrupalUrlWithoutBase(services: Services, path: string)
    requires IsEmptyValue(services.setting(DrupalBaseUrlKey)) && services.currentRequest.None?
    ensures DrupalUrl(services, path).value == path
  {
  }

  /** The trailing slashes of the base are dropped, so base and rooted path meet in exactly one slash. */
  lemma DrupalUrlJoinsWithOneSlash(services: Services, base: string, path: string)
    requires services.setting(DrupalBaseUrlKey) == Some(base + "/") && base != "" && base[|base| - 1] != '/'
    requires |path| > 0 && path[0] == '/'
    ensures DrupalUrl(services, path).value == base + path
  {
    assert RTrimChar(base + "/", '/') == RTrimChar(base, '/') by {
      assert (base + "/")[..|base + "/"| - 1] == base;
    }
  }

  /** A base without a trailing slash is kept as it is, and the path follows it directly. */
  lemma DrupalUrlKeepsBase(services: Services, path: string)
    requires BaseUrl(services).value != "" && BaseUrl(services).value[|BaseUrl(services).value| - 1] != '/'
    ensures DrupalUrl(services, path).value == BaseUrl(services).value + path
  {
  }

  /**
    The base of the route tests, configured or taken from the request with
    no configured one, joins "/contact" to "https://cms.example.com/contact".
   */
  lemma CmsExampleUrl(services: Services)
    requires || services.setting(DrupalBaseUrlKey) == Some("https://cms.example.com")
             || (services.setting(DrupalBaseUrlKey) == Some("") && services.currentRequest == Some("https://cms.example.com"))
    ensures DrupalUrl(services, "/contact").value == "https://cms.example.com/contact"
  {
    assert BaseUrl(services).value == "https://cms.example.com";
    DrupalUrlKeepsBase(services, "/contact");
    assert "https://cms.example.com" + "/contact" == "https://cms.example.com/contact";
  }

  // ---------------------------------------------------------------------
  // Splitting off query and fragment

  /** `splitPathAndQuery` gives a prefix of the trimmed path with no `?` and no `#`, and an empty query array. */
  lemma SplitPathAndQueryShape(path: string)
    ensures var r := SplitPathAndQuery(path);
      && r.1 == map[]
      && |r.0| <= |Trim(path)| && r.0 == Trim(path)[..|r.0|]
      && NoMarks(r.0)
  {
  }

  // ---------------------------------------------------------------------
  // Path normalisation

  /** A path that already has the normal shape, no marks, no surrounding blanks and a legal length is left unchanged. */
  lemma NormalizePathFixesNormalPaths(s: string)
    requires IsNormalPath(s) && NoMarks(s) && !IsTrimChar(s[|s| - 1]) && |s| <= MaxPathLength
    ensures NormalizePath(s) == s
  {
    TrimOfTrimmed(s);
    StripQueryFragmentWithoutMarks(s);
    if s == "/" {
      CollapseSlashesShape(s);
    } else {
      NormalizeRooted(s, s);
    }
  }

  /**
    One path segment with a trailing slash, then a query (and possibly a
    fragment), normalises to the rooted segment: "contact/?utm=1#frag"
    becomes "/contact".
   */
  lemma SegmentWithQueryNormalizes(w: string, q: string)
    requires w != "" && '/' !in w && NoMarks(w) && !IsTrimChar(w[0])
    requires |w| < MaxPathLength
    ensures SplitPathAndQuery(w + "/?" + q).0 == w + "/"
    ensures NormalizedRequest(w + "/?" + q) == "/" + w
  {
    SplitSegmentWithQuery(w, q);
    NormalizeSegmentWithSlash(w);
  }

  /** A segment, a slash and a query split to the segment and the slash, whatever the query holds. */
  lemma SplitSegmentWithQuery(w: string, q: string)
    requires w != "" && NoMarks(w) && !IsTrimChar(w[0])
    ensures SplitPathAndQuery(w + "/?" + q).0 == w + "/"
  {
    var s := w + "/?" + q;
    var k := |w| + 1;
    assert s[0] == w[0] && s[k] == '?';
    TrimKeepsUpToMark(s, k);
    var tr := Trim(s);
    assert tr[..k] == s[..k] == w + "/";
    assert tr[1] == s[1] && s[1] != '#';
    CutAtMarkAt(tr, k);
  }

  lemma NormalizeSegmentWithSlash(w: string)
    requires w != "" && '/' !in w && NoMarks(w) && !IsTrimChar(w[0]) && |w| < MaxPathLength
    ensures NormalizePath(w + "/") == "/" + w
  {
    var p := w + "/";
    assert Trim(p) == p && StripQueryFragment(p) == p by {
      assert p[|p| - 1] == '/' && p[0] == w[0];
      TrimOfTrimmed(p);
      assert NoMarks(p);
      StripQueryFragmentWithoutMarks(p);
    }
    assert NoDoubleSlash("/" + p) && RTrimChar("/" + p, '/') == "/" + w by {
      var rooted := "/" + p;
      assert rooted[..|rooted| - 1] == "/" + w;
      assert RTrimChar("/" + w, '/') == "/" + w;
    }
    NormalizeUnrooted(p, p);
  }

  /**
    The steps of `normalizePath` for a trimmed, stripped path that does not
    start with a slash and has no slash run once rooted.
   */
  lemma NormalizeUnrooted(path: string, stripped: string)
    requires Trim(path) != "" && |Trim(path)| <= MaxPathLength && StripQueryFragment(Trim(path)) == stripped
    requires stripped != "" && stripped[0] != '/' && NoDoubleSlash("/" + stripped)
    ensures NormalizePath(path)
      == if EndsWithChar(stripped, '/') then RTrimChar("/" + stripped, '/') else "/" + stripped
  {
    CollapseSlashesShape("/" + stripped);
  }

  /**
    The steps of `normalizePath` for a trimmed, stripped path that is already
    rooted, has no slash run and no trailing slash.
   */
  lemma NormalizeRooted(path: string, stripped: string)
    requires Trim(path) != "" && |Trim(path)| <= MaxPathLength && StripQueryFragment(Trim(path)) == stripped
    requires stripped != "" && stripped[0] == '/' && NoDoubleSlash(stripped) && !EndsWithChar(stripped, '/')
    ensures NormalizePath(path) == stripped
  {
    CollapseSlashesShape(stripped);
  }

  /**
    Normalisation is not idempotent: trimming happens before the query is cut
    off, so "a ?x" gives "/a ", which normalises again to "/a".
   */
  lemma NormalizePathNotIdempotent(w: string, q: string)
    requires w != "" && '/' !in w && NoMarks(w) && !IsTrimChar(w[0]) && !IsTrimChar(w[|w| - 1])
    requires '\n' !in w && '\n' !in q
    requires q == "" || !IsTrimChar(q[|q| - 1])
    requires |w| + 2 + |q| <= MaxPathLength
    ensures NormalizePath(w + " ?" + q) == "/" + w + " "
    ensures NormalizePath(NormalizePath(w + " ?" + q)) == "/" + w
  {
    NormalizeBlankBeforeQuery(w, q);
    NormalizeTrailingBlank(w);
  }

  /** The blank before the query survives: "a ?x" becomes "/a ". */
  lemma NormalizeBlankBeforeQuery(w: string, q: string)
    requires w != "" && '/' !in w && NoMarks(w) && !IsTrimChar(w[0])
    requires '\n' !in w && '\n' !in q
    requires q == "" || !IsTrimChar(q[|q| - 1])
    requires |w| + 2 + |q| <= MaxPathLength
    ensures NormalizePath(w + " ?" + q) == "/" + w + " "
  {
    var s := w + " ?" + q;
    assert "/" + (w + " ") == "/" + w + " ";
    assert Trim(s) == s && StripQueryFragment(s) == w + " " by {
      assert s[0] == w[0];
      assert s[|s| - 1] == if q == "" then '?' else q[|q| - 1];
      TrimOfTrimmed(s);
      assert s[..|w| + 1] == w + " ";
      CutAtMarkAt(s, |w| + 1);
      assert '\n' !in s;
      StripQueryFragmentWithoutNewline(s);
    }
    NormalizeUnrooted(s, w + " ");
  }

  /** A rooted segment with one trailing blank normalises to the segment: "/a " becomes "/a". */
  lemma NormalizeTrailingBlank(w: string)
    requires w != "" && '/' !in w && NoMarks(w) && !IsTrimChar(w[|w| - 1])
    requires |w| < MaxPathLength
    ensures NormalizePath("/" + w + " ") == "/" + w
  {
    var rooted := "/" + w + " ";
    var again := "/" + w;
    assert Trim(rooted) == again && StripQueryFragment(again) == again by {
      assert TrimRight(rooted) == TrimRight(again) by {
        assert rooted[..|rooted| - 1] == again;
      }
      assert NoMarks(again);
      StripQueryFragmentWithoutMarks(again);
    }
    NormalizeRooted(rooted, again);
  }

  /**
    PCRE's `.` does not match a newline, so a `?` whose remainder holds a
    newline before its last byte is kept, where cutting at the first mark
    would drop it: the regular expression is not a plain cut.
   */
  lemma NewlineKeepsMark(w: string, rest: string)
    requires NoMarks(w) && |rest| > 1 && rest[0] == '?'
    requires NoMarks(rest[1..]) && '\n' in rest[1..|rest| - 1]
    ensures StripQueryFragment(w + rest) == w + rest
    ensures CutAtMark(w + rest) == w
  {
    MarkBeforeNewlineKept(rest);
    StripAfterMarkFreePrefix(w, rest);
    assert (w + rest)[..|w|] == w;
    CutAtMarkAt(w + rest, |w|);
  }

  /** A mark whose mark-free remainder has a newline before its last byte is kept with it. */
  lemma MarkBeforeNewlineKept(rest: string)
    requires |rest| > 1 && rest[0] == '?'
    requires NoMarks(rest[1..]) && '\n' in rest[1..|rest| - 1]
    ensures StripQueryFragment(rest) == rest
  {
    var r := rest[1..];
    assert r[..|r| - 1] == rest[1..|rest| - 1];
    assert !DotStarToEnd(r);
    StripQueryFragmentWithoutMarks(r);
    assert [rest[0]] + r == rest;
  }

  /**
    PHP truthiness in `?:`: a path "0" followed by a fragment splits to "",
    while "0" followed by a query keeps "0" and normalises to "/0".
   */
  lemma ZeroBeforeFragmentIsDropped(q: string)
    ensures SplitPathAndQuery("0#" + q).0 == ""
    ensures SplitPathAndQuery("0?" + q).0 == "0"
    ensures NormalizedRequest("0?" + q) == "/0"
  {
    SplitZeroBeforeFragment(q);
    SplitZeroBeforeQuery(q);
    NormalizeZero();
  }

  /** "0#" splits to "" whatever follows it. */
  lemma SplitZeroBeforeFragment(q: string)
    ensures SplitPathAndQuery("0#" + q).0 == ""
  {
    var f := "0#" + q;
    assert f[0] == '0' && f[1] == '#';
    TrimKeepsUpToMark(f, 1);
    assert Trim(f)[..2] == "0#";
  }

  /** "0?" splits to "0" whatever follows it. */
  lemma SplitZeroBeforeQuery(q: string)
    ensures SplitPathAndQuery("0?" + q).0 == "0"
  {
    SplitOneByteBeforeQuery('0', q);
  }

  /** A one-byte path followed by a query keeps its byte, whatever the query holds. */
  lemma SplitOneByteBeforeQuery(c: char, q: string)
    requires !IsTrimChar(c) && !IsQueryOrFragmentMark(c)
    ensures SplitPathAndQuery([c, '?'] + q).0 == [c]
  {
    var g := [c, '?'] + q;
    assert g[0] == c && g[1] == '?';
    TrimKeepsUpToMark(g, 1);
    var tr := Trim(g);
    assert tr[..2] == g[..2];
    assert tr[..1] == [c] && tr[1] == '?';
    CutAtMarkAt(tr, 1);
  }

  /** The path "0" is rooted like any other segment. */
  lemma NormalizeZero()
    ensures NormalizePath("0") == "/0"
  {
    NormalizeOneByte('0');
  }

  /** A one-byte path that is not a slash, a mark or a blank is rooted. */
  lemma NormalizeOneByte(c: char)
    requires !IsTrimChar(c) && !IsQueryOrFragmentMark(c) && c != '/'
    ensures NormalizePath([c]) == ['/', c]
  {
    assert Trim([c]) == [c] && StripQueryFragment([c]) == [c] by {
      TrimOfTrimmed([c]);
      StripQueryFragmentWithoutMarks([c]);
    }
    assert NoDoubleSlash(['/', c]);
    assert "/" + [c] == ['/', c];
    NormalizeUnrooted([c], [c]);
  }
}
