# Intelligent 404 — a verified model

`Intelligent404` is a SilverStripe extension for the error-page controller.
When a page is answered with "404 Not Found", it works in four steps:

1. It extracts a page key from the requested path.
2. It compares that key with the last URL segment of every record of the
   configured data classes. A candidate matches exactly when the segment is
   the key, or possibly when the two have the same Soundex code.
3. It redirects permanently (301) to a single match, when so configured.
4. Otherwise it lists the matches, grouped, under the error page's content and
   offers a sanitised search query.

This project models that engine, which is `onAfterInit` and `RedirectToPage`
in `src/Intelligent404.php`, and proves its contracts. It has one module per
stage:

- `Text`: ASCII character classes and case mapping, PHP's notion of a
  false string, and `preg_split` on `/`, with and without empty pieces.
- `PathNormalizer`: the page key. It takes the leading run of path
  characters, strips one known page extension and keeps the last segment.
- `PhoneticEncoder`: PHP's `soundex`, as the engine uses it.
- `CandidateMatcher`: the nested loops over data sources and their records.
  They are imperative methods (`MatchCandidate`, `MatchCandidates`, `Match`)
  proved against fold functions (`RecordAll`, `LinksWith`, `Matched`,
  `GroupedOf`).
  - The structural lemmas hold for any comparison function. The engine
    passes `ClassifierFor(key)`, the comparison of lines 124-138.
  - The link-keyed PHP arrays `$exact_matches` and `$possible_matches` keep
    their insertion order. They are modelled as sequences of distinct links.
- `RedirectPolicy`: the decision of lines 142-151. The 301 thrown by
  `RedirectToPage` is the value `Redirect(url, 301)`.
- `QuerySanitizer`: the two `preg_replace` passes that build the search query.
- `Intelligent404`:
  - the guards (error code, the error page itself, dev mode);
  - the specification function `Respond`;
  - the class `ErrorPageController`, whose method `OnAfterInit` runs the
    stages and updates the page's fields.

Where the code differs from a natural reading of the engine's design, the
model follows the code:

- **Normalising twice is not the identity.** Only one extension is removed per
  pass. So "/a.html.html" has the key "a.html", and normalising "a.html" again
  gives "a" (`NormalizeNotIdempotent`). Idempotence holds only for keys that do
  not end in a page extension (`NormalizeKeyAgain`).
- **An empty key can match exactly.** Such a key comes from requests like "/"
  or "/.html". It matches every candidate whose relative link is a true string
  but has no segment, as `end([])` and `array_pop([])` compare equal
  (`EmptyKeyMatches`). It never matches phonetically.
- **H and W separate letters.** PHP's `soundex` treats them like vowels, so
  they separate two letters of the same digit group. Classic Soundex does not
  (`UncodedLetterSeparatesSameGroup`).

Several lemmas are single-word examples: `RobertAndRupert`,
`AbuotSoundsLikeAbout` and `AbuotUsFindsAboutUs`. Each names its word through
`Spells(s, w)`, which holds exactly when `s` is `w`, so that its proof goes
letter by letter. The general rules behind them are separate lemmas
(`SoundsLikeRobert`, `SoundexIgnoresSwappedUncoded`, `NormalizeHtmlPage`).

## Model

| member | source | states |
|---|---|---|
| Text.Split | src/Intelligent404.php:83 | `preg_split('/\//', s)` yields at least one piece; no piece contains the delimiter and every character comes from `s` |
| Text.SplitThenJoin | src/Intelligent404.php:83 | splitting on a delimiter and joining again gives the string back, so no character is lost or invented |
| Text.SplitConcatDelimiter | src/Intelligent404.php:83 | a delimiter between two strings separates them: the pieces of the whole are the pieces of the left part followed by those of the right |
| Text.DropEmpty | src/Intelligent404.php:83 | `PREG_SPLIT_NO_EMPTY` keeps exactly the non-empty pieces: each kept piece is non-empty and one of the split's, and every non-empty piece is kept |
| Text.Segments | src/Intelligent404.php:128 | with `PREG_SPLIT_NO_EMPTY` every segment is non-empty, free of `/`, and made of characters of the input |
| Text.LastSegment | src/Intelligent404.php:128-130 | the last segment contains no `/` and only characters of the input; it is empty exactly when there is no segment |
| Text.SegmentsOfJoin | src/Intelligent404.php:83 | joining two paths with `/` gives every segment of both, in order: none is dropped, reordered or invented |
| Text.LastSegmentOfJoin | src/Intelligent404.php:83-84 | the popped segment is the final `/`-free piece of the path, whatever precedes it |
| Text.LeadingSlashAddsNoSegment | src/Intelligent404.php:83 | a leading `/` adds no segment |
| Text.TrailingSlashAddsNoSegment | src/Intelligent404.php:83 | a trailing `/` adds no segment |
| Text.SegmentsWithoutSlash | src/Intelligent404.php:83-84 | a string without `/` splits into itself, and is its own single segment when non-empty |
| PathNormalizer.LeadingRun | src/Intelligent404.php:79 | the greedy match of `^([a-z0-9._\-/]+)`/i: a prefix made of path characters, followed by the end or by a character outside the class |
| PathNormalizer.PageExtensionLength | src/Intelligent404.php:82 | every listed extension (asp, aspx, htm, html, php, php3, php4), dot included, is four or five characters long |
| PathNormalizer.PageExtensionAlnum | src/Intelligent404.php:82 | after the dot, an extension is made of letters and digits |
| PathNormalizer.ExtensionLength | src/Intelligent404.php:82 | the length of the extension that ends the string, if any; the suffix of that length is a page extension |
| PathNormalizer.StripExtension | src/Intelligent404.php:82 | the result is a prefix of the input, and anything removed is a page extension at the very end |
| PathNormalizer.StripExtensionKeeps | src/Intelligent404.php:82 | a string is left unchanged if and only if none of its suffixes is a page extension, in any case |
| PathNormalizer.PageExtensionSuffixUnique | src/Intelligent404.php:82 | no two different suffixes of a string are both page extensions, so exactly one extension is removed |
| PathNormalizer.StripExtensionAfterSlash | src/Intelligent404.php:82 | a leading `/` does not change which extension is stripped |
| PathNormalizer.StripExtensionAfterTrailingSlash | src/Intelligent404.php:82 | nothing is stripped from a path ending in `/` |
| PathNormalizer.StripHtml | src/Intelligent404.php:82 | ".html" is removed from the end of any path |
| PathNormalizer.Normalize | src/Intelligent404.php:79-84 | there is no key (nothing happens) exactly when the path is empty or starts outside the class; a key never contains `/` and is made only of `[A-Za-z0-9._-]` |
| PathNormalizer.QueryAndFragmentIgnored | src/Intelligent404.php:79 | everything after the first character outside the class, such as `?query` or `#fragment`, is ignored |
| PathNormalizer.LeadingSlashIgnored | src/Intelligent404.php:79-84 | `//about-us` has the key of `/about-us` |
| PathNormalizer.TrailingSlashIgnored | src/Intelligent404.php:79-84 | `/about-us/` has the key of `/about-us` when the path does not end in a page extension |
| PathNormalizer.NormalizeKeyAgain | src/Intelligent404.php:79-84 | a key that does not end in a page extension normalises to itself |
| PathNormalizer.NormalizeHtmlPath | src/Intelligent404.php:79-84 | the key of a path of path characters with ".html" appended is the path's last segment |
| PathNormalizer.NormalizeHtmlPage | src/Intelligent404.php:79-84 | "/name.html" has the key "name" for every name of key characters |
| PathNormalizer.NormalizeNestedHtmlPage | src/Intelligent404.php:79-84 | a page below any directories, "/products/widget.html" say, has its own name as key: the directories are dropped |
| PathNormalizer.NormalizeHtmlName | src/Intelligent404.php:79-84 | "name.html" has the key "name" |
| PathNormalizer.NormalizeNotIdempotent | src/Intelligent404.php:79-84 | "/name.html.html" has the key "name.html", whose own key is "name": normalising is not idempotent |
| PathNormalizer.ExtensionBeforeTrailingSlashKept | src/Intelligent404.php:82-84 | stripping comes before splitting: "/foo.html/" keeps "foo.html" as its key |
| PathNormalizer.ExtensionAfterSlashStripped | src/Intelligent404.php:82-84 | "/foo/.html" loses the extension and has the key "foo" |
| PhoneticEncoder.Code | src/Intelligent404.php:85 | the Soundex digit group of a letter is one of '0'..'6' |
| PhoneticEncoder.Letters | src/Intelligent404.php:85 | the letters of the input upper-cased: never longer than the input, all upper-case |
| PhoneticEncoder.Digits | src/Intelligent404.php:85 | the coded digits are all in '1'..'6'; what they say about letter groups is stated by `DigitsSameGroup`, `DigitsSwapUncoded` and `UncodedLetterSeparatesSameGroup` |
| PhoneticEncoder.DigitsSameGroup | src/Intelligent404.php:85 | a letter right after a letter of the same digit group adds no digit, wherever the pair stands |
| PhoneticEncoder.DigitsSwapUncoded | src/Intelligent404.php:85 | two adjacent letters without a digit can trade places without changing the digits |
| PhoneticEncoder.Pad3 | src/Intelligent404.php:85 | exactly three digits: the first three, or all of them padded with '0' |
| PhoneticEncoder.Soundex | src/Intelligent404.php:85 | PHP's `soundex`: empty exactly for the empty string, otherwise four characters; the rest of its contract is `SoundexForm` and the lemmas below |
| PhoneticEncoder.SoundexForm | src/Intelligent404.php:85 | the code is empty only for the empty string; otherwise it has four characters, an upper-cased first letter (or "0000" without letters) and digits '0'..'6' |
| PhoneticEncoder.LettersAppend | src/Intelligent404.php:85 | taking the letters distributes over concatenation |
| PhoneticEncoder.LettersIgnoreCase | src/Intelligent404.php:85 | upper- or lower-casing the input does not change its letters |
| PhoneticEncoder.SoundexIgnoresCase | src/Intelligent404.php:135 | the code ignores case |
| PhoneticEncoder.SoundexIgnoresNonLetter | src/Intelligent404.php:135 | inserting a non-letter anywhere in a non-empty string leaves its code unchanged |
| PhoneticEncoder.SoundexIgnoresDoubledLetter | src/Intelligent404.php:135 | writing a letter twice in a row never changes the code |
| PhoneticEncoder.SoundexIgnoresSameGroupLetter | src/Intelligent404.php:135 | inserting, right after a letter, a letter of its digit group never changes the code, whether the two letters are equal or not ("CK", "DT", "MN") and also after the first letter ("Pfister" codes like "Pister") |
| PhoneticEncoder.SoundexIgnoresSwappedUncoded | src/Intelligent404.php:135 | swapping two adjacent vowels (or H, W, Y) after the first letter never changes the code |
| PhoneticEncoder.UncodedLetterSeparatesSameGroup | src/Intelligent404.php:85 | a vowel, H, W or Y between two letters of the same group lets the second one be coded again |
| PhoneticEncoder.SoundexOfWord | src/Intelligent404.php:85 | the code of a word of letters is its upper-cased first letter followed by the padded digits of the rest |
| PhoneticEncoder.SoundsLikeRobert | src/Intelligent404.php:85 | every word R, a vowel (or H, W, Y), one of B F P V, "ert" has the code "R163", whatever the case of the two middle letters |
| PhoneticEncoder.RobertAndRupert | src/Intelligent404.php:135 | "Robert" and "Rupert" sound alike: both codes are "R163" |
| CandidateMatcher.Classify | src/Intelligent404.php:124-138 | a candidate is skipped exactly when its relative link is false ("" or "0"); a possible match's segment is never the key, so exact and possible exclude each other |
| CandidateMatcher.GroupLabel | src/Intelligent404.php:103 | a source's group is its configured group when that is a true string, otherwise "Pages"; either way a true string |
| CandidateMatcher.EmptyKeyMatches | src/Intelligent404.php:124-138 | an empty key is never matched phonetically, and matches exactly when the relative link is true but has no segment |
| CandidateMatcher.RecordAllKeepsDistinct | src/Intelligent404.php:134 | recording links keyed by link never duplicates one |
| CandidateMatcher.LinksWith | src/Intelligent404.php:95-140 | the links recorded over all usable sources are distinct |
| CandidateMatcher.MatchCandidate | src/Intelligent404.php:120-138 | one candidate: its link is recorded as exact or possible according to its verdict, and it is pushed onto the group's list exactly when it matches |
| CandidateMatcher.MatchCandidates | src/Intelligent404.php:119-139 | the inner loop leaves the link collections as the fold over the candidates and appends every match, in order, to the group's list |
| CandidateMatcher.MatchSource | src/Intelligent404.php:103-139 | one usable source: both link collections become their folds over its candidates, and its group's list, created empty when the group is new, gets its matches appended in order |
| CandidateMatcher.Match | src/Intelligent404.php:95-140 | the nested loops compute `MatchOf`: unusable sources are skipped and each usable one gets its group's list; both link collections are duplicate-free |
| CandidateMatcher.MatchOf | src/Intelligent404.php:95-140 | the result of the loops as a fold over the sources; both link collections are duplicate-free (membership, grouping and counts in the lemmas below) |
| CandidateMatcher.RecordAllMembers | src/Intelligent404.php:132-137 | a link is in the collection after a source exactly when it was before or some candidate of the source has that link and verdict |
| CandidateMatcher.LinksWithMembers | src/Intelligent404.php:95-140 | a link is recorded with a verdict exactly when some candidate of a usable source carries it with that verdict |
| CandidateMatcher.ExactAndPossibleDisjoint | src/Intelligent404.php:132-137 | no link is both exact and possible when equal links have equal relative links |
| CandidateMatcher.MatchedMembers | src/Intelligent404.php:132-137 | a candidate is pushed exactly when it is offered and matches |
| CandidateMatcher.GroupedKeys | src/Intelligent404.php:103-107 | a group list exists exactly for the labels of usable sources, even when nothing of them matched |
| CandidateMatcher.GroupedList | src/Intelligent404.php:103-137 | a group's list holds exactly the matching candidates of the usable sources with that label |
| CandidateMatcher.GroupedAgreesWithRecorded | src/Intelligent404.php:132-137 | every listed candidate has a true relative link and its link recorded as exact or possible; every recorded link is carried by a listed candidate |
| CandidateMatcher.RecordAllKnown | src/Intelligent404.php:134-137 | recording links that are all known already changes nothing |
| CandidateMatcher.RepeatedSourceAddsNoLinks | src/Intelligent404.php:134-137 | a second configured class offering the same records as an earlier one (a page subclass alongside `SiteTree`, say) records no new link |
| CandidateMatcher.RepeatedSourceListsTwice | src/Intelligent404.php:133-136 | records offered again by a second class in the same group are pushed again, so each of their matches appears at least twice in the group list |
| CandidateMatcher.FoundConcat | src/Intelligent404.php:95 | a candidate with a verdict and link is found in two lists of sources concatenated exactly when it is found in one of them |
| CandidateMatcher.SourceOrderKeepsLinks | src/Intelligent404.php:95-140 | the order of the sources changes the order of the links, never which are recorded |
| CandidateMatcher.LinkCount | src/Intelligent404.php:142-143 | each count is the number of distinct links found with that verdict |
| RedirectPolicy.Decide | src/Intelligent404.php:142-151 | a redirect happens iff the flag is on and there is one exact link, or none exact and one possible; it is a 301 to that link; nothing happens iff nothing matched; otherwise the groups are presented with the sanitised key |
| QuerySanitizer.KeepAllowed | src/Intelligent404.php:158 | the first pass keeps only `[A-Za-z0-9._-]`, leaves such a string unchanged and never lengthens |
| QuerySanitizer.SkipDashes | src/Intelligent404.php:159 | removes exactly the leading run of `_` and `-` |
| QuerySanitizer.DashesToSpaces | src/Intelligent404.php:159 | the second pass never lengthens; what it does to dash runs is stated by `DashRunBecomesSpace` and the lemmas below |
| QuerySanitizer.SkipDashRun | src/Intelligent404.php:159 | a whole run of dashes is skipped up to the first character after it |
| QuerySanitizer.DashesToSpacesAppend | src/Intelligent404.php:159 | the second pass works piece by piece when the first piece does not end inside a dash run |
| QuerySanitizer.DashRunBecomesSpace | src/Intelligent404.php:159 | every maximal run of `_` and `-`, of any length, at the start, in the middle or at the end, becomes exactly one space ("a--b" gives "a b", "ab-" gives "ab ") |
| QuerySanitizer.DashesToSpacesChars | src/Intelligent404.php:159 | no dash survives the second pass; every other character is a space or comes from the input; it starts with a space exactly when the input starts with a dash or space |
| QuerySanitizer.NoDoubleSpaces | src/Intelligent404.php:159 | the second pass never writes two spaces in a row into a string without spaces |
| QuerySanitizer.Sanitize | src/Intelligent404.php:157-161 | the query is no longer than the key, has only letters, digits, dots and spaces, and never two spaces in a row |
| QuerySanitizer.PlainOfKeepAllowed | src/Intelligent404.php:158 | the first pass loses no letter, digit or dot |
| QuerySanitizer.PlainOfDashesToSpaces | src/Intelligent404.php:159 | the second pass loses no letter, digit or dot |
| QuerySanitizer.SanitizeKeepsLettersDigitsAndDots | src/Intelligent404.php:157-161 | the query keeps every letter, digit and dot of the key, in order, and adds none |
| QuerySanitizer.SanitizeWithoutDashes | src/Intelligent404.php:157-161 | a key of letters, digits and dots is its own query |
| QuerySanitizer.DashesBetweenWords | src/Intelligent404.php:159 | words separated by runs of dashes and underscores of any length become the words joined by single spaces |
| QuerySanitizer.SanitizeDashSeparatedWords | src/Intelligent404.php:157-161 | such words followed by characters outside the class give the words joined by single spaces ("my__page-name!!" gives "my page name") |
| Intelligent404.ErrorCode | src/Intelligent404.php:64 | a page without an error code counts as 404; any other code is kept |
| Intelligent404.Engaged | src/Intelligent404.php:64-78 | matching goes ahead only for a page with no error code or 404, never in dev mode unless allowed, and never when a true request URI is the error page's own link; it does go ahead for a 404 outside dev mode when there is no error page |
| Intelligent404.HasSources | src/Intelligent404.php:90-93 | matching needs `data_objects` to be an array with at least one entry; a missing or non-array value stops it |
| Intelligent404.Respond | src/Intelligent404.php:62-165 | a redirect is always a 301 and only happens with `redirect_on_single_match` on |
| Intelligent404.NoLinksWithoutMatch | src/Intelligent404.php:95-143 | both link collections are empty exactly when no candidate of a usable source matches |
| Intelligent404.NoActionExactly | src/Intelligent404.php:62-165 | the page is untouched exactly when a guard fails, the path yields no key, no source is configured, or nothing matches |
| Intelligent404.RedirectTarget | src/Intelligent404.php:142-150 | a redirect happens iff the flag is on and there is one distinct exact link, or none and one distinct possible link; it goes to that link |
| Intelligent404.OnlyPossibleMatch | src/Intelligent404.php:95-140 | one usable source in the default group with one sound-alike candidate gives exactly that possible match, listed under "Pages" |
| Intelligent404.MisspeltLinkToSinglePage | src/Intelligent404.php:62-165 | a misspelt link with one sound-alike page redirects to it with 301 when configured, and is otherwise listed with the sanitised key as query |
| Intelligent404.AbuotSoundsLikeAbout | src/Intelligent404.php:124-138 | the page "/about-us/" is a possible match, not an exact one, for the misspelt key "abuot-us" |
| Intelligent404.AbuotUsFindsAboutUs | src/Intelligent404.php:62-165 | a request for "/abuot-us.html" with "/about-us/" the only configured page redirects there with 301 when so configured, and otherwise lists it under "Pages" |
| Intelligent404.ErrorPageController.OnAfterInit | src/Intelligent404.php:62-165 | returns `Respond`'s decision; when matches are presented, it keeps the old content, stores the rendered options, appends them to the content and sets the search query; otherwise it changes nothing |

## Left out

- Framework reads become inputs of `Request` and `Config`: the failover page's `ErrorCode`, `$_SERVER['REQUEST_URI']`, the error page's `Link()`, `Director::isDev()` and the `Config` values.
- The ORM is not modelled. `ClassInfo::exists`, `method_exists`, `$class::get()`, `filter` and `exclude` become each source's `usable` flag and its already filtered candidates.
- `$result->Link()` and `Director::makeRelative` are not modelled; each candidate carries both links.
- Template rendering (`customise`, `renderWith`, `DBHTMLVarchar`) is the `render` parameter of `OnAfterInit`.
- The HTTP response and its exception are the returned `Redirect` decision.
- PHP's loose `==` is modelled as string equality. Numeric strings such as "1e3" and "1000" would compare equal in PHP; the model does not capture that on lines 73 and 132.
- `Classify` does not capture the page key "0" (a request for "/0"). A candidate whose relative link is true but has no segment gets `false` from `end`, and PHP's `false == "0"` is true, so line 132 lists it as an exact match; the model compares "" with "0" and finds no match.
- The group lists are a map, so the order in which group names were first used is not kept.
- PHP's `soundex` is a builtin. It is written out here from its documented C behaviour, with non-ASCII characters treated as non-letters.
