# Webform path resolver, modelled in Dafny

This models `WebformPathResolver`, the decorator that the jsonapi_frontend_webform
Drupal module puts around the jsonapi_frontend path resolver. The inner resolver
runs first. If it does not resolve the path and the `webform` module is
installed, the decorator tries the path as a Webform route. It splits off the
query and fragment and normalises the path. It looks up the alias with the
effective language code and checks that the internal target lies under
`/form/`, is a valid route and may be accessed. If every step passes, it
answers with a non-headless "route" record. That record carries the canonical
path and the absolute Drupal URL, so that a frontend can proxy or redirect to
Drupal. On every failing step it returns the inner resolver's record unchanged.

The class is pure: its seven collaborators are injected and read-only, and no
state changes between calls. So every method is a Dafny function.

- `Wrappers.dfy`: `Option`, used for PHP's NULL and FALSE results.
- `PhpStrings.dfy`: the PHP built-ins the class relies on, on byte strings:
  `trim`, `rtrim` with one character, `strpos`, `strstr(..., TRUE)`, truthiness,
  `empty()`, `str_starts_with`, `str_ends_with`.
- `WebformPathResolver.dfy`: the class.
  - The collaborators are one `Services` value: the inner resolver,
    `moduleExists`, both directions of the alias manager, `getUrlIfValid` with
    the URL's access check, the settings, the two languages, and the request's
    scheme and host.
  - `Resolve` returns the record together with the exact list of service calls
    it made. That is how "the alias store is never asked" is stated.
  - The two `preg_replace` calls are modelled as PCRE defines them:
    `[?#].*$` does not cross a newline, and `$` also matches before a final
    newline.
- `WebformPathResolverProperties.dfy`: what the class promises.
  - Pass-through of the inner record, with the exact trace, on each failure.
  - The route record on success, and the decision as a whole.
  - The language fallback, and at most one language lookup per resolution.
  - How the Drupal URL is composed.
  - The shapes of the split and normalised paths, and the unit tests' inputs
    stated over all strings of their form.

PHP's falsy string "0" is kept in all three places the class tests truthiness:
- `strstr(...) ?: ''` turns "0#x" into "".
- The `$current_alias && ...` guard ignores an alias "0".
- `empty($base_url)` treats a base URL "0" as unset.

## Model

| member | source | states |
|---|---|---|
| PhpStrings.TrimLeftShape | src/Service/WebformPathResolver.php:132 | the left half of `trim` keeps a suffix, drops only the six trim characters, and stops at the first other one |
| PhpStrings.TrimRightShape | src/Service/WebformPathResolver.php:132 | the right half of `trim` keeps a prefix, drops only trim characters, and stops at the last other one |
| PhpStrings.TrimShape | src/Service/WebformPathResolver.php:132 | the trimmed string starts and ends with a non-trim character, and is "" exactly when the input is all trim characters |
| PhpStrings.TrimDecomposes | src/Service/WebformPathResolver.php:157 | the input is trim characters, then the trimmed string, then trim characters |
| PhpStrings.TrimOfTrimmed | src/Service/WebformPathResolver.php:157 | a string whose two ends are not trim characters is left unchanged |
| PhpStrings.TrimFixedPoints | src/Service/WebformPathResolver.php:157 | `trim` leaves a string unchanged if and only if it is empty or neither of its ends is a trim character |
| PhpStrings.TrimIdempotent | src/Service/WebformPathResolver.php:132 | trimming twice is trimming once |
| PhpStrings.RTrimCharShape | src/Service/WebformPathResolver.php:126 | `rtrim($s, '/')` keeps a prefix, drops only slashes, and leaves no slash at the end |
| PhpStrings.Strpos | src/Service/WebformPathResolver.php:166-169 | FALSE exactly when there is no `?`; otherwise the index of a `?` with none before it |
| PhpStrings.StrstrBefore | src/Service/WebformPathResolver.php:162-164 | FALSE exactly when there is no `#`; otherwise the prefix that ends right before the first `#` |
| WebformPathResolver.CutAtMark | src/Service/WebformPathResolver.php:162-173 | reference definition: the longest prefix with no `?` or `#`, followed by a mark or by the end |
| WebformPathResolver.SplitPathAndQuery | src/Service/WebformPathResolver.php:156-174 | the path part is what precedes the first `?` or `#` of the trimmed input, except "" for trimmed input starting "0#"; the query part is always empty |
| WebformPathResolver.StripFragmentThenQuery | src/Service/WebformPathResolver.php:162-173 | cutting at `#` with `?:`, then at `?`, equals cutting at the first mark, except that "0#..." gives "" |
| WebformPathResolver.StripQueryFragmentWithoutNewline | src/Service/WebformPathResolver.php:139 | with no newline in the subject, the regular expression `[?#].*$` cuts at the first mark |
| WebformPathResolver.StripAfterMarkFreePrefix | src/Service/WebformPathResolver.php:139 | a prefix with no mark passes through the regular expression unchanged |
| WebformPathResolver.StripQueryFragmentWithoutMarks | src/Service/WebformPathResolver.php:139 | a string with no mark is left unchanged by the regular expression |
| WebformPathResolver.CollapseSlashesShape | src/Service/WebformPathResolver.php:146 | after `#/+#` becomes `/`: no `//`, same first and last byte, the same non-slash bytes in order, and no change to a string without `//` |
| WebformPathResolver.CollapseSlashesMergesRun | src/Service/WebformPathResolver.php:146 | two slashes anywhere collapse exactly as one slash at the same place; with the no-`//` clause of `CollapseSlashesShape` this fixes the result of `#/+#` → `/` for every input |
| WebformPathResolver.CollapseSlashesKeepsSegments | src/Service/WebformPathResolver.php:146 | collapsing keeps the list of non-empty runs between slashes, so each slash run becomes one slash in place |
| WebformPathResolver.SegmentsAppendSlash | src/Service/WebformPathResolver.php:147-149 | one trailing slash, the one `rtrim` removes, adds no segment |
| WebformPathResolver.SegmentsOfRooted | src/Service/WebformPathResolver.php:143-145 | the `/` prefixed to an unrooted path adds no segment |
| WebformPathResolver.NormalizePathShape | src/Service/WebformPathResolver.php:131-151 | "" exactly when the trimmed input is empty, longer than 2048 bytes, or stripped to nothing; otherwise rooted, no `//`, a trailing `/` only on "/", the non-slash bytes of the stripped input kept in order, and the same segments (non-empty runs between slashes) as the stripped input; at most 2049 bytes |
| WebformPathResolver.DropTrailingSlash | src/Service/WebformPathResolver.php:147-149 | on a rooted path with no `//` and a trailing slash, `rtrim` drops exactly that one slash and gives a normal path with the same bytes other than slashes and the same segments |
| WebformPathResolver.EffectiveLangcode | src/Service/WebformPathResolver.php:93-106 | a non-empty code is returned with no call; otherwise the fallback setting is read and then exactly one language, current or default, is asked |
| WebformPathResolver.DrupalUrl | src/Service/WebformPathResolver.php:111-129 | the URL is a prefix of the base URL, cut only at trailing slashes and never ending in `/`, followed by the path; only the base URL is looked up |
| WebformPathResolver.Resolve | src/Service/WebformPathResolver.php:35-91 | the inner resolver is asked first; the answer is the inner record, or a resolved non-headless route record |
| WebformPathResolverProperties.ResolvedInnerPassesThrough | src/Service/WebformPathResolver.php:36-39 | an inner record with `resolved` exactly TRUE is returned as is, after no other call |
| WebformPathResolverProperties.MissingWebformPassesThrough | src/Service/WebformPathResolver.php:41-43 | without the webform module the inner record is returned after only the module check |
| WebformPathResolverProperties.UnusablePathPassesThrough | src/Service/WebformPathResolver.php:45-49 | a path that normalises to "" gives the inner record, before any language or alias call |
| WebformPathResolverProperties.TooLongPathSkipsAliasStore | tests/src/Unit/WebformPathResolverTest.php:108-130 | a mark-free path longer than 2048 bytes once trimmed gives the inner record, and the trace stops after the module check |
| WebformPathResolverProperties.TrimKeepsNoMarks | src/Service/WebformPathResolver.php:156-174 | trimming a mark-free path leaves it mark-free, so the split gives back the trimmed path |
| WebformPathResolverProperties.AliasMissPassesThrough | src/Service/WebformPathResolver.php:53-56 | an alias lookup giving no string or "" returns the inner record; the trace ends at the alias lookup |
| WebformPathResolverProperties.NonWebformTargetPassesThrough | src/Service/WebformPathResolver.php:58-62 | an internal path outside "/form/" returns the inner record; the path validator is never asked |
| WebformPathResolverProperties.InvalidRoutePassesThrough | src/Service/WebformPathResolver.php:64-67 | a target the path validator rejects returns the inner record; the trace ends at the validator |
| WebformPathResolverProperties.AccessDeniedPassesThrough | src/Service/WebformPathResolver.php:69-72 | a target the user may not access returns the inner record; the reverse alias is never asked |
| WebformPathResolverProperties.WebformRouteResolves | src/Service/WebformPathResolver.php:74-90 | on success: resolved, kind "route", not headless, no entity, redirect or JSON:API fields, the canonical path, the Drupal URL, and the full trace |
| WebformPathResolverProperties.ResolveCharacterised | src/Service/WebformPathResolver.php:35-91 | the route record comes back exactly when every step passes; otherwise the record is the inner one |
| WebformPathResolverProperties.CanonicalFallsBackToRequestPath | src/Service/WebformPathResolver.php:74-75 | for any request whose normalised path is usable, a reverse alias that is missing, "" or "0" gives that normalised path, which is proved rooted |
| WebformPathResolverProperties.CanonicalGuardIsTruthiness | src/Service/WebformPathResolver.php:75 | the `!== ''` half of the guard adds nothing to PHP truthiness |
| WebformPathResolverProperties.EffectiveLangcodeRule | src/Service/WebformPathResolver.php:93-106 | given code: used verbatim, no language call; otherwise one language call, the current one exactly when the setting is "current" |
| WebformPathResolverProperties.LanguageLookupsThroughAlias | src/Service/WebformPathResolver.php:51-53 | up to the alias lookup, the language manager is asked once, or never when a code is given |
| WebformPathResolverProperties.ResolveAsksLanguageAtMostOnce | tests/src/Unit/WebformPathResolverTest.php:139-143 | a whole resolution that reaches the alias store asks the language manager once, or never when a code is given |
| WebformPathResolverProperties.BaseUrlChoice | src/Service/WebformPathResolver.php:112-124 | the base is the configured URL unless `empty()` holds of it, else the request's scheme and host, else ""; the request is consulted exactly when the setting is empty |
| WebformPathResolverProperties.DrupalUrlWithoutBase | tests/src/Unit/WebformPathResolverTest.php:349-386 | with no usable base and no request the Drupal URL is the path itself |
| WebformPathResolverProperties.DrupalUrlJoinsWithOneSlash | src/Service/WebformPathResolver.php:126-128 | a configured base with one trailing slash and a rooted path meet in exactly one slash |
| WebformPathResolverProperties.DrupalUrlKeepsBase | src/Service/WebformPathResolver.php:126-128 | a base without a trailing slash is kept as it is, followed by the path |
| WebformPathResolverProperties.CmsExampleUrl | tests/src/Unit/WebformPathResolverTest.php:160-184 | the base "https://cms.example.com", configured or from the request, joins "/contact" to "https://cms.example.com/contact" |
| WebformPathResolverProperties.SplitPathAndQueryShape | src/Service/WebformPathResolver.php:156-174 | the path part is a prefix of the trimmed input with no `?` and no `#`; the query array is empty |
| WebformPathResolverProperties.NormalizePathFixesNormalPaths | src/Service/WebformPathResolver.php:131-151 | a normal path with no marks, no surrounding blanks and at most 2048 bytes normalises to itself |
| WebformPathResolverProperties.SegmentWithQueryNormalizes | tests/src/Unit/WebformPathResolverTest.php:179-183 | a one-segment path with a trailing slash and a query, as "contact/?utm=1#frag", splits to "contact/" and normalises to "/contact", whatever the query holds and however long it is (the length bound applies to the segment only) |
| WebformPathResolverProperties.SplitSegmentWithQuery | src/Service/WebformPathResolver.php:156-174 | a segment, a slash and any query split to the segment and the slash |
| WebformPathResolverProperties.NormalizeSegmentWithSlash | src/Service/WebformPathResolver.php:139-150 | a segment with one trailing slash normalises to the rooted segment without it |
| WebformPathResolverProperties.NormalizeUnrooted | src/Service/WebformPathResolver.php:143-150 | a stripped path not starting with `/` and with no `//` once rooted gets one leading slash and loses its trailing slashes |
| WebformPathResolverProperties.NormalizeRooted | src/Service/WebformPathResolver.php:143-150 | a stripped path that is rooted, has no `//` and no trailing slash is returned as is |
| WebformPathResolverProperties.NormalizePathNotIdempotent | src/Service/WebformPathResolver.php:132-139 | trimming comes before the query is cut, so "a ?x" normalises to "/a " and that again to "/a" |
| WebformPathResolverProperties.NormalizeBlankBeforeQuery | src/Service/WebformPathResolver.php:132-139 | the blank before a query survives normalisation: "a ?x" gives "/a " |
| WebformPathResolverProperties.NormalizeTrailingBlank | src/Service/WebformPathResolver.php:132-150 | a rooted segment with a trailing blank normalises to the segment: "/a " gives "/a" |
| WebformPathResolverProperties.NewlineKeepsMark | src/Service/WebformPathResolver.php:139 | a `?` whose mark-free remainder holds a newline before its last byte is kept by the regular expression, though cutting at the first mark would drop it |
| WebformPathResolverProperties.MarkBeforeNewlineKept | src/Service/WebformPathResolver.php:139 | a subject that starts with `?` and whose mark-free remainder holds a newline before its last byte is left unchanged by the regular expression |
| WebformPathResolverProperties.ZeroBeforeFragmentIsDropped | src/Service/WebformPathResolver.php:162-171 | "0#" followed by anything splits to "" because "0" is falsy in `?:`, while "0?" followed by anything splits to "0" and normalises to "/0" |
| WebformPathResolverProperties.SplitZeroBeforeFragment | src/Service/WebformPathResolver.php:162-164 | "0#" followed by any bytes splits to "" |
| WebformPathResolverProperties.SplitZeroBeforeQuery | src/Service/WebformPathResolver.php:166-171 | "0?" followed by any bytes splits to "0" |
| WebformPathResolverProperties.SplitOneByteBeforeQuery | src/Service/WebformPathResolver.php:166-171 | a one-byte path followed by a query keeps its byte, whatever the query holds |
| WebformPathResolverProperties.TrimKeepsUpToMark | src/Service/WebformPathResolver.php:157 | when the first byte is not a trim character, `trim` keeps every byte up to and including the first mark, whatever follows |
| WebformPathResolverProperties.NormalizeZero | src/Service/WebformPathResolver.php:143-145 | the path "0" normalises to "/0" |
| WebformPathResolverProperties.NormalizeOneByte | src/Service/WebformPathResolver.php:143-145 | a one-byte path that is not a slash, a mark or a blank gets rooted |

## Left out

- The Drupal and Symfony services are not modelled; they are opaque function and value parameters. This covers the inner resolver, the alias manager, the path validator, `Url::access`, the language manager, the module handler, the configuration factory and the request stack.
- Exceptions thrown by those services are left out: the class does not catch them.
- `Url::access` is asked here with no account and no result object, and its answer is modelled as a plain boolean.
- The configuration holds only strings or nothing. A setting of another PHP type, and the `(string)` cast on it at src/Service/WebformPathResolver.php:99 and :126, are not modelled.
- `preg_replace` returning NULL on a PCRE error, and falling back through `?? $path`, is not modelled: both replacements are taken to succeed.
- A Dafny `char` stands for one byte of a PHP string. Multi-byte text is not modelled as such.
- `Resolve`'s trace counts a settings read as one call. Fetching the `jsonapi_frontend.settings` object before the read is not a separate entry.
- `getAliasByPath` and `getPathByAlias` are modelled as pure functions of their arguments. Drupal's alias caches are not modelled.
- The PHPUnit mock set-up of the tests is not modelled. Their inputs become lemmas over every string of the same form, not one literal string: `SegmentWithQueryNormalizes`, `TooLongPathSkipsAliasStore`. `CmsExampleUrl` keeps the tests' literal base and path; it is one instance of the general `DrupalUrlKeepsBase`.
- TooLongPathSkipsAliasStore: stated for paths without `?` or `#`, as in the test's run of 2050 "a" bytes. `NormalizePathShape` gives the general over-length case.
