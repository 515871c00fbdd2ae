/** `Intelligent404::onAfterInit`: when a page is answered with "404 Not
    Found", look for pages whose URL segment is the requested one or sounds
    like it; redirect to a single match, or list the matches on the error
    page together with a search query. */
module Intelligent404 {
  import opened Text
  import opened PathNormalizer
  import opened PhoneticEncoder
  import opened CandidateMatcher
  import opened QuerySanitizer
  import opened RedirectPolicy

  const NotFound := 404

  /** What the host tells the extension about the response being built.
      `failoverErrorCode` is the error code of the page being shown, 0 when
      it has none; `errorPageLink` is the link of the first error page for
      that code, if there is one; `isDev` is the environment type. */
  datatype Request = Request(failoverErrorCode: int, uri: string, errorPageLink: Option<string>, isDev: bool)

  /** The extension's configuration: `allow_in_dev_mode`,
      `redirect_on_single_match` and `data_objects`, the latter with each
      class already resolved to its usable flag, group and candidates
      (None when it is missing or not an array). */
  datatype Config = Config(allowInDevMode: bool, redirectOnSingleMatch: bool, dataObjects: Option<seq<Source>>)

  /** The response's error code; a page without one counts as "not found". */
  function ErrorCode(failover: int): (code: int)
    ensures code == NotFound <==> failover == 0 || failover == NotFound
    ensures failover != 0 ==> code == failover
  {
    if failover == 0 then NotFound else failover
  }

  /** The guards before any matching: a 404, which is not the error page
      being rendered at its own address, outside dev mode unless allowed. */
  predicate Engaged(req: Request, cfg: Config)
    ensures Engaged(req, cfg) ==> req.failoverErrorCode == 0 || req.failoverErrorCode == NotFound
    ensures Engaged(req, cfg) && req.isDev ==> cfg.allowInDevMode
    ensures Engaged(req, cfg) && req.errorPageLink == Some(req.uri) ==> Falsy(req.uri)
    ensures ((req.failoverErrorCode == 0 || req.failoverErrorCode == NotFound)
             && !req.isDev && req.errorPageLink.None?) ==> Engaged(req, cfg)
  {
    && ErrorCode(req.failoverErrorCode) == NotFound
    && !(!Falsy(req.uri) && req.errorPageLink == Some(req.uri))
    && (!req.isDev || cfg.allowInDevMode)
  }

  /** The configured sources, when there are any: line 91 gives up on a
      missing value, a non-array and an empty array alike (PHP's `!` on []). */
  predicate HasSources(cfg: Config)
    ensures HasSources(cfg) ==> cfg.dataObjects.Some? && |cfg.dataObjects.value| >= 1
    ensures cfg.dataObjects.None? ==> !HasSources(cfg)
  {
    cfg.dataObjects.Some? && cfg.dataObjects.value != []
  }

  /** What the extension does with a request: the specification of OnAfterInit. */
  function Respond(req: Request, cfg: Config): (d: Decision)
    ensures d.Redirect? ==> d.status == MovedPermanently && cfg.redirectOnSingleMatch
  {
    if !Engaged(req, cfg) then NoAction
    else match Normalize(req.uri)
      case None => NoAction
      case Some(key) =>
        if !HasSources(cfg) then NoAction
        else Decide(MatchOf(key, cfg.dataObjects.value), cfg.redirectOnSingleMatch, key)
  }

  /** Some candidate of a usable source matches `key`. */
  ghost predicate AnyMatch(key: string, srcs: seq<Source>)
  {
    exists i, j :: (ClassifiedAt(ClassifierFor(key), srcs, i, j, Exact) || ClassifiedAt(ClassifierFor(key), srcs, i, j, Possible))
  }

  lemma NoLinksWithoutMatch(key: string, srcs: seq<Source>)
    ensures MatchOf(key, srcs).exact == [] && MatchOf(key, srcs).possible == [] <==> !AnyMatch(key, srcs)
  {
    var m := MatchOf(key, srcs);
    if m.exact != [] {
      LinksWithMembers(ClassifierFor(key), srcs, Exact, m.exact[0]);
    }
    if m.possible != [] {
      LinksWithMembers(ClassifierFor(key), srcs, Possible, m.possible[0]);
    }
    if AnyMatch(key, srcs) {
      var i, j :| ClassifiedAt(ClassifierFor(key), srcs, i, j, Exact) || ClassifiedAt(ClassifierFor(key), srcs, i, j, Possible);
      var link := srcs[i].candidates[j].link;
      LinksWithMembers(ClassifierFor(key), srcs, Exact, link);
      LinksWithMembers(ClassifierFor(key), srcs, Possible, link);
    }
  }

  /** The page is left untouched exactly when a guard fails, the path has no
      key, no source is configured, or no candidate matches. */
  lemma NoActionExactly(req: Request, cfg: Config)
    ensures Respond(req, cfg).NoAction? <==>
              || !Engaged(req, cfg)
              || Normalize(req.uri).None?
              || !HasSources(cfg)
              || !AnyMatch(Normalize(req.uri).value, cfg.dataObjects.value)
  {
    if Engaged(req, cfg) && Normalize(req.uri).Some? && HasSources(cfg) {
      NoLinksWithoutMatch(Normalize(req.uri).value, cfg.dataObjects.value);
    }
  }

  /** A redirect goes to the link of a candidate of a usable source whose
      relative link is truthy and whose segment matches the key; it happens
      exactly when one distinct link matched exactly, or none exactly and one
      possibly. */
  lemma RedirectTarget(req: Request, cfg: Config, key: string)
    requires Engaged(req, cfg) && Normalize(req.uri) == Some(key) && HasSources(cfg)
    ensures var srcs := cfg.dataObjects.value;
            var exactLinks, possibleLinks := FoundLinks(ClassifierFor(key), srcs, Exact), FoundLinks(ClassifierFor(key), srcs, Possible);
            && (Respond(req, cfg).Redirect? <==>
                  cfg.redirectOnSingleMatch && (|exactLinks| == 1 || (|exactLinks| == 0 && |possibleLinks| == 1)))
            && (Respond(req, cfg).Redirect? ==>
                  if |exactLinks| == 1 then Respond(req, cfg).url in exactLinks else Respond(req, cfg).url in possibleLinks)
  {
    var srcs := cfg.dataObjects.value;
    var m := MatchOf(key, srcs);
    LinkCount(ClassifierFor(key), srcs, Exact);
    LinkCount(ClassifierFor(key), srcs, Possible);
    var d := Respond(req, cfg);
    if d.Redirect? {
      if |m.exact| == 1 {
        LinksWithMembers(ClassifierFor(key), srcs, Exact, d.url);
      } else {
        LinksWithMembers(ClassifierFor(key), srcs, Possible, d.url);
      }
      var v := if |m.exact| == 1 then Exact else Possible;
      var i, j :| ClassifiedAt(ClassifierFor(key), srcs, i, j, v) && srcs[i].candidates[j].link == d.url;
      assert d.url in FoundLinks(ClassifierFor(key), srcs, v);
    }
  }

  /** A single usable source in the default group, offering one candidate
      that sounds like the key, yields exactly that possible match. */
  lemma OnlyPossibleMatch(key: string, c: Candidate)
    requires Classify(key, c) == Possible
    ensures MatchOf(key, [Source(true, "", [c])]) == MatchSet([], [c.link], map[DefaultGroup := [c]])
  {
    var src := Source(true, "", [c]);
    var srcs, classify := [src], ClassifierFor(key);
    assert srcs[..0] == [];
    assert [c][..0] == [];
    assert classify(c) == Possible;
    assert RecordAll([], classify, [c], Exact) == [];
    assert RecordAll([], classify, [c], Possible) == [c.link];
    assert LinksWith(classify, srcs, Exact) == [];
    assert LinksWith(classify, srcs, Possible) == [c.link];
    assert Matched(classify, [c]) == [c];
    assert GroupLabel(src) == DefaultGroup;
    assert GroupedOf(classify, srcs) == map[DefaultGroup := [] + [c]];
  }

  /** The configuration listing one page `c` in the default group. */
  function SinglePageConfig(redirectOnSingleMatch: bool, c: Candidate): Config
  {
    Config(false, redirectOnSingleMatch, Some([Source(true, "", [c])]))
  }

  /** A visitor following a misspelt link ("/abuot-us.html" for the page
      "/about-us/") when one page sounds like it: with single-match redirects
      on they are sent permanently to it; otherwise it is listed under
      "Pages", with the sanitised key as the search query. */
  lemma MisspeltLinkToSinglePage(req: Request, key: string, c: Candidate, redirectOnSingleMatch: bool)
    requires Engaged(req, SinglePageConfig(redirectOnSingleMatch, c))
    requires Normalize(req.uri) == Some(key)
    requires Classify(key, c) == Possible
    ensures Respond(req, SinglePageConfig(redirectOnSingleMatch, c))
         == if redirectOnSingleMatch then Redirect(c.link, MovedPermanently)
            else Present(map[DefaultGroup := [c]], Sanitize(key))
  {
    OnlyPossibleMatch(key, c);
  }

  /** "abuot-us" is "about-us" with its third and fourth letters swapped. */
  lemma AbuotIsAboutSwapped(key: string, name: string)
    requires Spells(key, "abuot-us") && Spells(name, "about-us")
    ensures key == name[..2] + [name[3], name[2]] + name[4..]
    ensures key != name && AllKeyChars(key) && AllKeyChars(name)
  {
    assert key[2] != name[2];
  }

  /** Both spellings have the same code (A132): the vowels only trade places. */
  lemma AbuotCodeIsAboutCode(key: string, name: string)
    requires Spells(key, "abuot-us") && Spells(name, "about-us")
    ensures Soundex(key) == Soundex(name)
  {
    AbuotIsAboutSwapped(key, name);
    assert name[..2] == [name[0]] + name[1..2];
    LettersOfLetterThen(name[0], name[1..2]);
    SoundexIgnoresSwappedUncoded(name, 2);
  }

  /** The page "/about-us/" sounds like the misspelt key "abuot-us" without
      being an exact match. */
  lemma AbuotSoundsLikeAbout(key: string, name: string, link: string)
    requires Spells(key, "abuot-us") && Spells(name, "about-us")
    ensures Classify(key, Candidate(link, "/" + name + "/")) == Possible
  {
    AbuotIsAboutSwapped(key, name);
    AbuotCodeIsAboutCode(key, name);
    LastSegmentOfDirectory(name);
  }

  /** The misspelt link of the example above, end to end: a request for
      "/abuot-us.html", with "/about-us/" the only configured page. */
  lemma AbuotUsFindsAboutUs(req: Request, key: string, name: string, link: string, redirectOnSingleMatch: bool)
    requires Spells(key, "abuot-us") && Spells(name, "about-us")
    requires req.uri == "/" + key + ".html"
    requires Engaged(req, SinglePageConfig(redirectOnSingleMatch, Candidate(link, "/" + name + "/")))
    ensures Respond(req, SinglePageConfig(redirectOnSingleMatch, Candidate(link, "/" + name + "/")))
         == if redirectOnSingleMatch then Redirect(link, MovedPermanently)
            else Present(map[DefaultGroup := [Candidate(link, "/" + name + "/")]], Sanitize(key))
  {
    AbuotIsAboutSwapped(key, name);
    NormalizeHtmlPage(key);
    AbuotSoundsLikeAbout(key, name, link);
    MisspeltLinkToSinglePage(req, key, Candidate(link, "/" + name + "/"), redirectOnSingleMatch);
  }

  /** The error page whose controller the extension decorates; `content` is
      its HTML content, the other fields are set for its template. */
  class ErrorPageController {
    var content: string
    var contentWithout404Options: string
    var intelligent404Options: string
    var searchQuery: string

    constructor(content: string)
      ensures this.content == content
      ensures contentWithout404Options == intelligent404Options == searchQuery == ""
    {
      this.content := content;
      contentWithout404Options := "";
      intelligent404Options := "";
      searchQuery := "";
    }

    /** Lines 62-165. `render` stands for the `Intelligent404Options`
        template applied to the group lists. A redirect is the returned
        Redirect decision (the source throws it as a response exception). */
    method OnAfterInit(req: Request, cfg: Config, render: map<string, seq<Candidate>> -> string) returns (d: Decision)
      modifies this
      ensures d == Respond(req, cfg)
      ensures d.Present? ==>
                && contentWithout404Options == old(content)
                && intelligent404Options == render(d.grouped)
                && content == old(content) + intelligent404Options
                && searchQuery == d.searchQuery
      ensures !d.Present? ==> unchanged(this)
    {
      var errorCode := ErrorCode(req.failoverErrorCode);
      if errorCode != NotFound {
        return NoAction;
      }
      if !Falsy(req.uri) && req.errorPageLink.Some? && req.errorPageLink.value == req.uri {
        return NoAction;
      }
      if req.isDev && !cfg.allowInDevMode {
        return NoAction;
      }
      var extracted := Normalize(req.uri);
      if extracted.None? {
        return NoAction;
      }
      var pageKey := extracted.value;
      var soundsLike := Soundex(pageKey);
      if cfg.dataObjects.None? || cfg.dataObjects.value == [] {
        return NoAction;
      }
      var m := Match(pageKey, cfg.dataObjects.value, soundsLike);
      d := Decide(m, cfg.redirectOnSingleMatch, pageKey);
      if d.Present? {
        contentWithout404Options := content;
        intelligent404Options := render(m.grouped);
        content := content + intelligent404Options;
        searchQuery := Sanitize(pageKey);
      }
    }
  }
}
