/** The nested `foreach` of `Intelligent404::onAfterInit`
    (src/Intelligent404.php:95-140): every candidate of every usable data
    source is compared with the page key, exactly by its last link segment or
    else by the Soundex code of that segment. Matches are recorded in two
    link-keyed collections and pushed onto their group's list.

    The collections keyed by link are PHP arrays, which keep the order in
    which keys were first inserted; they are modelled as sequences of distinct
    links, appended to only when the link is new. */
module CandidateMatcher {
  import opened Text
  import opened PhoneticEncoder

  /** A record offered by the data layer: its link (`$result->Link()`) and that
      link made relative to the site root (`Director::makeRelative`). */
  datatype Candidate = Candidate(link: string, relLink: string)

  /** One configured data source: whether its class exists and has a `Link`
      method, its configured group ("" when absent or empty), and its records,
      already filtered and excluded as configured. */
  datatype Source = Source(usable: bool, group: string, candidates: seq<Candidate>)

  /** What one comparison decides for one candidate. */
  datatype Verdict = Skipped | Exact | Possible | Unmatched

  /** The matcher's output: exact and possible links (distinct, in first
      insertion order) and the matched candidates per group name. */
  datatype MatchSet = MatchSet(exact: seq<string>, possible: seq<string>, grouped: map<string, seq<Candidate>>)

  const DefaultGroup: string := "Pages"

  /** The group a source's matches are listed under. */
  function GroupLabel(src: Source): (g: string)
    ensures !Falsy(g)
    ensures g == src.group || g == DefaultGroup
  {
    if Falsy(src.group) then DefaultGroup else src.group
  }

  /** The comparison of lines 124-138 for one candidate. */
  function Classify(key: string, c: Candidate): (v: Verdict)
    ensures v == Skipped <==> Falsy(c.relLink)
    ensures v == Possible ==> LastSegment(c.relLink) != key
  {
    if Falsy(c.relLink) then Skipped
    else
      var segment := LastSegment(c.relLink);
      if segment == key then Exact
      else if Soundex(key) == Soundex(segment) then Possible
      else Unmatched
  }

  predicate IsMatch(v: Verdict) { v == Exact || v == Possible }

  predicate Distinct(s: seq<string>)
  {
    forall i, j :: 0 <= i < j < |s| ==> s[i] != s[j]
  }

  /** `$map[$link] = $link` on an insertion-ordered array of links. */
  function Record(links: seq<string>, link: string): seq<string>
  {
    if link in links then links else links + [link]
  }

  /** The comparison of lines 124-138 against page key `key`, as a function
      of the candidate. The structural facts below hold for any comparison;
      the matcher uses this one. */
  function ClassifierFor(key: string): Candidate -> Verdict
  {
    c => Classify(key, c)
  }

  /** `links` after recording every candidate of `cs` whose verdict is `v`. */
  function RecordAll(links: seq<string>, classify: Candidate -> Verdict, cs: seq<Candidate>, v: Verdict): seq<string>
  {
    if cs == [] then links
    else
      var prev := RecordAll(links, classify, cs[..|cs| - 1], v);
      var c := cs[|cs| - 1];
      if classify(c) == v then Record(prev, c.link) else prev
  }

  /** Recording never introduces a second copy of a link. */
  lemma {:induction false} RecordAllKeepsDistinct(links: seq<string>, classify: Candidate -> Verdict, cs: seq<Candidate>, v: Verdict)
    requires Distinct(links)
    ensures Distinct(RecordAll(links, classify, cs, v))
  {
    if cs != [] {
      RecordAllKeepsDistinct(links, classify, cs[..|cs| - 1], v);
    }
  }

  /** The links recorded with verdict `v` over the usable sources of `srcs`. */
  function LinksWith(classify: Candidate -> Verdict, srcs: seq<Source>, v: Verdict): (r: seq<string>)
    ensures Distinct(r)
  {
    if srcs == [] then []
    else
      var prev := LinksWith(classify, srcs[..|srcs| - 1], v);
      var src := srcs[|srcs| - 1];
      if src.usable then
        RecordAllKeepsDistinct(prev, classify, src.candidates, v);
        RecordAll(prev, classify, src.candidates, v)
      else prev
  }

  /** The candidates of `cs` that match, in order. */
  function Matched(classify: Candidate -> Verdict, cs: seq<Candidate>): seq<Candidate>
  {
    if cs == [] then []
    else
      var c := cs[|cs| - 1];
      Matched(classify, cs[..|cs| - 1]) + (if IsMatch(classify(c)) then [c] else [])
  }

  function ListOf(grouped: map<string, seq<Candidate>>, name: string): seq<Candidate>
  {
    if name in grouped then grouped[name] else []
  }

  /** The group lists after the usable sources of `srcs`: each usable source
      creates its name's list if absent and appends its matches to it. */
  function GroupedOf(classify: Candidate -> Verdict, srcs: seq<Source>): map<string, seq<Candidate>>
  {
    if srcs == [] then map[]
    else
      var g := GroupedOf(classify, srcs[..|srcs| - 1]);
      var src := srcs[|srcs| - 1];
      if !src.usable then g
      else
        var name := GroupLabel(src);
        g[name := ListOf(g, name) + Matched(classify, src.candidates)]
  }

  /** What the nested loops compute for page key `key`. */
  function MatchOf(key: string, srcs: seq<Source>): (m: MatchSet)
    ensures Distinct(m.exact) && Distinct(m.possible)
  {
    var classify := ClassifierFor(key);
    MatchSet(LinksWith(classify, srcs, Exact), LinksWith(classify, srcs, Possible), GroupedOf(classify, srcs))
  }

  lemma SourcesStep(key: string, srcs: seq<Source>, i: nat)
    requires i < |srcs|
    ensures var classify := ClassifierFor(key);
            && LinksWith(classify, srcs[..i + 1], Exact)
               == (if srcs[i].usable then RecordAll(LinksWith(classify, srcs[..i], Exact), classify, srcs[i].candidates, Exact)
                   else LinksWith(classify, srcs[..i], Exact))
            && LinksWith(classify, srcs[..i + 1], Possible)
               == (if srcs[i].usable then RecordAll(LinksWith(classify, srcs[..i], Possible), classify, srcs[i].candidates, Possible)
                   else LinksWith(classify, srcs[..i], Possible))
            && GroupedOf(classify, srcs[..i + 1])
               == (if srcs[i].usable then
                     var g := GroupedOf(classify, srcs[..i]);
                     g[GroupLabel(srcs[i]) := ListOf(g, GroupLabel(srcs[i])) + Matched(classify, srcs[i].candidates)]
                   else GroupedOf(classify, srcs[..i]))
  {
    assert srcs[..i + 1][..i] == srcs[..i];
  }

  lemma CandidatesStep(classify: Candidate -> Verdict, cs: seq<Candidate>, j: nat, exact0: seq<string>, possible0: seq<string>, list0: seq<Candidate>)
    requires j < |cs|
    ensures var c, v := cs[j], classify(cs[j]);
            && RecordAll(exact0, classify, cs[..j + 1], Exact)
               == (if v == Exact then Record(RecordAll(exact0, classify, cs[..j], Exact), c.link) else RecordAll(exact0, classify, cs[..j], Exact))
            && RecordAll(possible0, classify, cs[..j + 1], Possible)
               == (if v == Possible then Record(RecordAll(possible0, classify, cs[..j], Possible), c.link) else RecordAll(possible0, classify, cs[..j], Possible))
            && list0 + Matched(classify, cs[..j + 1]) == list0 + Matched(classify, cs[..j]) + (if IsMatch(v) then [c] else [])
  {
    assert cs[..j + 1][..j] == cs[..j];
  }

  /** The body of the inner loop, lines 120-138, for one candidate `c`. */
  method MatchCandidate(key: string, soundsLike: string, c: Candidate,
                        exact0: seq<string>, possible0: seq<string>, list0: seq<Candidate>)
    returns (exact: seq<string>, possible: seq<string>, list: seq<Candidate>)
    requires soundsLike == Soundex(key)
    ensures exact == if Classify(key, c) == Exact then Record(exact0, c.link) else exact0
    ensures possible == if Classify(key, c) == Possible then Record(possible0, c.link) else possible0
    ensures list == list0 + (if IsMatch(Classify(key, c)) then [c] else [])
  {
    exact, possible, list := exact0, possible0, list0;
    if !Falsy(c.relLink) {
      var segment := LastSegment(c.relLink);
      if segment == key {
        list := list + [c];
        if c.link !in exact {
          exact := exact + [c.link];
        }
      } else if soundsLike == Soundex(segment) {
        list := list + [c];
        if c.link !in possible {
          possible := possible + [c.link];
        }
      }
    }
    if !IsMatch(Classify(key, c)) {
      assert list0 + [] == list0;
    }
  }

  /** The inner loop of lines 119-139, over the candidates of one source:
      `exact` and `possible` are the link collections so far, `list` the
      source group's list, which each match is pushed onto. */
  method MatchCandidates(key: string, soundsLike: string, cs: seq<Candidate>,
                         exact0: seq<string>, possible0: seq<string>, list0: seq<Candidate>)
    returns (exact: seq<string>, possible: seq<string>, list: seq<Candidate>)
    requires soundsLike == Soundex(key)
    ensures exact == RecordAll(exact0, ClassifierFor(key), cs, Exact)
    ensures possible == RecordAll(possible0, ClassifierFor(key), cs, Possible)
    ensures list == list0 + Matched(ClassifierFor(key), cs)
  {
    exact, possible, list := exact0, possible0, list0;
    var j := 0;
    assert cs[..0] == [];
    while j < |cs|
      invariant 0 <= j <= |cs|
      invariant exact == RecordAll(exact0, ClassifierFor(key), cs[..j], Exact)
      invariant possible == RecordAll(possible0, ClassifierFor(key), cs[..j], Possible)
      invariant list == list0 + Matched(ClassifierFor(key), cs[..j])
    {
      CandidatesStep(ClassifierFor(key), cs, j, exact0, possible0, list0);
      assert ClassifierFor(key)(cs[j]) == Classify(key, cs[j]);
      exact, possible, list := MatchCandidate(key, soundsLike, cs[j], exact, possible, list);
      j := j + 1;
    }
    assert cs[..j] == cs;
  }

  /** Lines 103-139 for one usable source: its group's list is created empty
      if absent, then its candidates are compared. */
  method MatchSource(key: string, soundsLike: string, src: Source,
                     exact0: seq<string>, possible0: seq<string>, grouped0: map<string, seq<Candidate>>)
    returns (exact: seq<string>, possible: seq<string>, grouped: map<string, seq<Candidate>>)
    requires soundsLike == Soundex(key)
    ensures exact == RecordAll(exact0, ClassifierFor(key), src.candidates, Exact)
    ensures possible == RecordAll(possible0, ClassifierFor(key), src.candidates, Possible)
    ensures grouped == grouped0[GroupLabel(src) := ListOf(grouped0, GroupLabel(src)) + Matched(ClassifierFor(key), src.candidates)]
  {
    var name := GroupLabel(src);
    grouped := grouped0;
    if name !in grouped {
      grouped := grouped[name := []];
    }
    assert grouped[name] == ListOf(grouped0, name);
    var list;
    exact, possible, list := MatchCandidates(key, soundsLike, src.candidates, exact0, possible0, grouped[name]);
    grouped := grouped[name := list];
  }

  /** The outer loop of lines 95-140, over the configured sources: an unusable
      source is skipped; a usable one is matched. `soundsLike` is the key's
      code, computed once beforehand (line 85). */
  method Match(key: string, sources: seq<Source>, soundsLike: string) returns (m: MatchSet)
    requires soundsLike == Soundex(key)
    ensures m == MatchOf(key, sources)
    ensures Distinct(m.exact) && Distinct(m.possible)
  {
    var exact: seq<string> := [];
    var possible: seq<string> := [];
    var grouped: map<string, seq<Candidate>> := map[];
    var i := 0;
    while i < |sources|
      invariant 0 <= i <= |sources|
      invariant exact == LinksWith(ClassifierFor(key), sources[..i], Exact)
      invariant possible == LinksWith(ClassifierFor(key), sources[..i], Possible)
      invariant grouped == GroupedOf(ClassifierFor(key), sources[..i])
    {
      SourcesStep(key, sources, i);
      if sources[i].usable {
        exact, possible, grouped := MatchSource(key, soundsLike, sources[i], exact, possible, grouped);
      }
      i := i + 1;
    }
    assert sources[..i] == sources;
    m := MatchSet(exact, possible, grouped);
  }

  /** Candidate `j` of source `i` exists, its source is usable, and it has
      verdict `v`. */
  ghost predicate ClassifiedAt(classify: Candidate -> Verdict, srcs: seq<Source>, i: int, j: int, v: Verdict)
  {
    0 <= i < |srcs| && srcs[i].usable && 0 <= j < |srcs[i].candidates| && classify(srcs[i].candidates[j]) == v
  }

  /** Some candidate of a usable source has link `link` and verdict `v`. */
  ghost predicate Found(classify: Candidate -> Verdict, srcs: seq<Source>, v: Verdict, link: string)
  {
    exists i, j :: ClassifiedAt(classify, srcs, i, j, v) && srcs[i].candidates[j].link == link
  }

  /** Some candidate of `cs` has link `link` and verdict `v`. */
  ghost predicate FoundAmong(classify: Candidate -> Verdict, cs: seq<Candidate>, v: Verdict, link: string)
  {
    exists j :: 0 <= j < |cs| && classify(cs[j]) == v && cs[j].link == link
  }

  lemma RecordMembers(links: seq<string>, link: string, x: string)
    ensures x in Record(links, link) <==> x in links || x == link
  {
  }

  lemma {:induction false} RecordAllMembers(links: seq<string>, classify: Candidate -> Verdict, cs: seq<Candidate>, v: Verdict, link: string)
    ensures link in RecordAll(links, classify, cs, v) <==> link in links || FoundAmong(classify, cs, v, link)
  {
    if cs != [] {
      var init, c := cs[..|cs| - 1], cs[|cs| - 1];
      var prev := RecordAll(links, classify, init, v);
      assert RecordAll(links, classify, cs, v) == if classify(c) == v then Record(prev, c.link) else prev;
      RecordAllMembers(links, classify, init, v, link);
      RecordMembers(prev, c.link, link);
      FoundAmongSplitLast(classify, cs, v, link);
    }
  }

  /** `FoundAmong` over `cs` is `FoundAmong` over all but the last candidate,
      or the last candidate itself. */
  lemma FoundAmongSplitLast(classify: Candidate -> Verdict, cs: seq<Candidate>, v: Verdict, link: string)
    requires cs != []
    ensures FoundAmong(classify, cs, v, link) <==>
              FoundAmong(classify, cs[..|cs| - 1], v, link) || (classify(cs[|cs| - 1]) == v && cs[|cs| - 1].link == link)
  {
    if FoundAmong(classify, cs[..|cs| - 1], v, link) {
      var j :| 0 <= j < |cs| - 1 && classify(cs[..|cs| - 1][j]) == v && cs[..|cs| - 1][j].link == link;
      FoundAmongAt(classify, cs, v, link, j);
    }
    if classify(cs[|cs| - 1]) == v && cs[|cs| - 1].link == link {
      FoundAmongAt(classify, cs, v, link, |cs| - 1);
    }
    if FoundAmong(classify, cs, v, link) {
      var j :| 0 <= j < |cs| && classify(cs[j]) == v && cs[j].link == link;
      if j < |cs| - 1 {
        FoundAmongAt(classify, cs[..|cs| - 1], v, link, j);
      }
    }
  }

  lemma FoundAmongAt(classify: Candidate -> Verdict, cs: seq<Candidate>, v: Verdict, link: string, j: int)
    requires 0 <= j < |cs| && classify(cs[j]) == v && cs[j].link == link
    ensures FoundAmong(classify, cs, v, link)
  {
  }

  /** A link is recorded with verdict `v` exactly when some candidate of a
      usable source carries it and has that verdict. */
  lemma {:induction false} LinksWithMembers(classify: Candidate -> Verdict, srcs: seq<Source>, v: Verdict, link: string)
    ensures link in LinksWith(classify, srcs, v) <==> Found(classify, srcs, v, link)
  {
    if srcs != [] {
      var init := srcs[..|srcs| - 1];
      var last := |srcs| - 1;
      var cs := srcs[last].candidates;
      var prev := LinksWith(classify, init, v);
      assert LinksWith(classify, srcs, v) == if srcs[last].usable then RecordAll(prev, classify, cs, v) else prev;
      LinksWithMembers(classify, init, v, link);
      RecordAllMembers(prev, classify, cs, v, link);
      FoundSplitLast(classify, srcs, v, link);
    }
  }

  /** `Found` over `srcs` is `Found` over all but the last source, or among
      the last source's candidates if it is usable. */
  lemma FoundSplitLast(classify: Candidate -> Verdict, srcs: seq<Source>, v: Verdict, link: string)
    requires srcs != []
    ensures Found(classify, srcs, v, link) <==>
              Found(classify, srcs[..|srcs| - 1], v, link) ||
              (srcs[|srcs| - 1].usable && FoundAmong(classify, srcs[|srcs| - 1].candidates, v, link))
  {
    if Found(classify, srcs[..|srcs| - 1], v, link) {
      FoundInInit(classify, srcs, v, link);
    }
    if srcs[|srcs| - 1].usable && FoundAmong(classify, srcs[|srcs| - 1].candidates, v, link) {
      FoundInLast(classify, srcs, v, link);
    }
    if Found(classify, srcs, v, link) {
      FoundSomewhere(classify, srcs, v, link);
    }
  }

  lemma FoundInInit(classify: Candidate -> Verdict, srcs: seq<Source>, v: Verdict, link: string)
    requires srcs != [] && Found(classify, srcs[..|srcs| - 1], v, link)
    ensures Found(classify, srcs, v, link)
  {
    var init := srcs[..|srcs| - 1];
    var i, j :| ClassifiedAt(classify, init, i, j, v) && init[i].candidates[j].link == link;
    assert init[i] == srcs[i];
    assert ClassifiedAt(classify, srcs, i, j, v);
  }

  lemma FoundInLast(classify: Candidate -> Verdict, srcs: seq<Source>, v: Verdict, link: string)
    requires srcs != [] && srcs[|srcs| - 1].usable && FoundAmong(classify, srcs[|srcs| - 1].candidates, v, link)
    ensures Found(classify, srcs, v, link)
  {
    var last := |srcs| - 1;
    var cs := srcs[last].candidates;
    var j :| 0 <= j < |cs| && classify(cs[j]) == v && cs[j].link == link;
    assert ClassifiedAt(classify, srcs, last, j, v);
  }

  lemma FoundSomewhere(classify: Candidate -> Verdict, srcs: seq<Source>, v: Verdict, link: string)
    requires srcs != [] && Found(classify, srcs, v, link)
    ensures Found(classify, srcs[..|srcs| - 1], v, link) ||
            (srcs[|srcs| - 1].usable && FoundAmong(classify, srcs[|srcs| - 1].candidates, v, link))
  {
    var i, j :| ClassifiedAt(classify, srcs, i, j, v) && srcs[i].candidates[j].link == link;
    if i < |srcs| - 1 {
      var init := srcs[..|srcs| - 1];
      assert init[i] == srcs[i];
      assert ClassifiedAt(classify, init, i, j, v);
    } else {
      var cs := srcs[|srcs| - 1].candidates;
      assert 0 <= j < |cs| && classify(cs[j]) == v && cs[j].link == link;
    }
  }

  /** Every candidate that shares a link with another also shares its
      relative link, as `Director::makeRelative` is a function of the link. */
  ghost predicate RelLinksAgree(srcs: seq<Source>)
  {
    forall i1, j1, i2, j2 ::
      0 <= i1 < |srcs| && 0 <= j1 < |srcs[i1].candidates| &&
      0 <= i2 < |srcs| && 0 <= j2 < |srcs[i2].candidates| &&
      srcs[i1].candidates[j1].link == srcs[i2].candidates[j2].link
      ==> srcs[i1].candidates[j1].relLink == srcs[i2].candidates[j2].relLink
  }

  /** No link is both an exact and a possible match: classification depends
      only on the link's segment. */
  lemma ExactAndPossibleDisjoint(key: string, srcs: seq<Source>)
    requires RelLinksAgree(srcs)
    ensures forall link :: link in MatchOf(key, srcs).exact ==> link !in MatchOf(key, srcs).possible
  {
    forall link | link in MatchOf(key, srcs).exact
      ensures link !in MatchOf(key, srcs).possible
    {
      var classify := ClassifierFor(key);
      LinksWithMembers(classify, srcs, Exact, link);
      LinksWithMembers(classify, srcs, Possible, link);
    }
  }

  lemma {:induction false} MatchedMembers(classify: Candidate -> Verdict, cs: seq<Candidate>, c: Candidate)
    ensures c in Matched(classify, cs) <==> c in cs && IsMatch(classify(c))
  {
    if cs != [] {
      var init := cs[..|cs| - 1];
      MatchedMembers(classify, init, c);
      assert cs == init + [cs[|cs| - 1]];
    }
  }

  /** Source `i` is usable, listed under `name`, and offers `c`, which matches. */
  ghost predicate ListedBy(classify: Candidate -> Verdict, srcs: seq<Source>, i: int, name: string, c: Candidate)
  {
    0 <= i < |srcs| && srcs[i].usable && GroupLabel(srcs[i]) == name && c in srcs[i].candidates && IsMatch(classify(c))
  }

  /** Source `i` is usable and listed under `name`. */
  ghost predicate UsableUnder(srcs: seq<Source>, i: int, name: string)
  {
    0 <= i < |srcs| && srcs[i].usable && GroupLabel(srcs[i]) == name
  }

  /** Every usable source has a list under its group label, even when nothing
      of it matched, and there are no other lists. */
  lemma {:induction false} GroupedKeys(classify: Candidate -> Verdict, srcs: seq<Source>, name: string)
    ensures name in GroupedOf(classify, srcs) <==> exists i :: UsableUnder(srcs, i, name)
  {
    if srcs != [] {
      var init, last := srcs[..|srcs| - 1], |srcs| - 1;
      GroupedKeys(classify, init, name);
      var g := GroupedOf(classify, init);
      var src := srcs[last];
      assert GroupedOf(classify, srcs) == if src.usable then g[GroupLabel(src) := ListOf(g, GroupLabel(src)) + Matched(classify, src.candidates)] else g;
      if src.usable && GroupLabel(src) == name {
        assert UsableUnder(srcs, last, name);
      }
      if exists i :: UsableUnder(srcs, i, name) {
        var i :| UsableUnder(srcs, i, name);
        if i < last {
          assert UsableUnder(init, i, name);
        }
      }
      if exists i :: UsableUnder(init, i, name) {
        var i :| UsableUnder(init, i, name);
        assert UsableUnder(srcs, i, name);
      }
    }
  }

  /** A group list holds exactly the matching candidates of the usable
      sources with that label. */
  lemma {:induction false} GroupedList(classify: Candidate -> Verdict, srcs: seq<Source>, name: string, c: Candidate)
    ensures c in ListOf(GroupedOf(classify, srcs), name) <==> exists i :: ListedBy(classify, srcs, i, name, c)
  {
    if srcs != [] {
      var init, last := srcs[..|srcs| - 1], |srcs| - 1;
      var src := srcs[last];
      GroupedList(classify, init, name, c);
      var before := ListOf(GroupedOf(classify, init), name);
      if src.usable && GroupLabel(src) == name {
        assert ListOf(GroupedOf(classify, srcs), name) == before + Matched(classify, src.candidates);
        MatchedMembers(classify, src.candidates, c);
        if c in Matched(classify, src.candidates) {
          assert ListedBy(classify, srcs, last, name, c);
        }
      } else {
        assert ListOf(GroupedOf(classify, srcs), name) == before;
        assert !ListedBy(classify, srcs, last, name, c);
      }
      if exists i :: ListedBy(classify, srcs, i, name, c) {
        var i :| ListedBy(classify, srcs, i, name, c);
        if i < last {
          assert ListedBy(classify, init, i, name, c);
        }
      }
      if exists i :: ListedBy(classify, init, i, name, c) {
        var i :| ListedBy(classify, init, i, name, c);
        assert ListedBy(classify, srcs, i, name, c);
      }
    }
  }

  /** The group lists and the two link collections describe the same matches:
      a listed candidate has a relative link and its link is recorded as exact
      or possible; a recorded link is carried by some listed candidate. */
  lemma GroupedAgreesWithRecorded(key: string, srcs: seq<Source>)
    ensures forall name, c :: name in MatchOf(key, srcs).grouped && c in MatchOf(key, srcs).grouped[name] ==>
              !Falsy(c.relLink) && (c.link in MatchOf(key, srcs).exact || c.link in MatchOf(key, srcs).possible)
    ensures forall link :: link in MatchOf(key, srcs).exact || link in MatchOf(key, srcs).possible ==>
              exists name, c :: name in MatchOf(key, srcs).grouped && c in MatchOf(key, srcs).grouped[name] && c.link == link
  {
    var m, classify := MatchOf(key, srcs), ClassifierFor(key);
    forall name, c | name in m.grouped && c in m.grouped[name]
      ensures !Falsy(c.relLink) && (c.link in m.exact || c.link in m.possible)
    {
      GroupedList(classify, srcs, name, c);
      var i :| ListedBy(classify, srcs, i, name, c);
      var j :| 0 <= j < |srcs[i].candidates| && srcs[i].candidates[j] == c;
      var v := classify(c);
      assert v == Classify(key, c);
      assert ClassifiedAt(classify, srcs, i, j, v);
      LinksWithMembers(classify, srcs, v, c.link);
    }
    forall link | link in m.exact || link in m.possible
      ensures exists name, c :: name in m.grouped && c in m.grouped[name] && c.link == link
    {
      var v := if link in m.exact then Exact else Possible;
      LinksWithMembers(classify, srcs, v, link);
      var i, j :| ClassifiedAt(classify, srcs, i, j, v) && srcs[i].candidates[j].link == link;
      var c, name := srcs[i].candidates[j], GroupLabel(srcs[i]);
      GroupedKeys(classify, srcs, name);
      assert UsableUnder(srcs, i, name);
      GroupedList(classify, srcs, name, c);
      assert ListedBy(classify, srcs, i, name, c);
    }
  }

  lemma {:induction false} RecordAllKnown(links: seq<string>, classify: Candidate -> Verdict, cs: seq<Candidate>, v: Verdict)
    requires forall j :: 0 <= j < |cs| && classify(cs[j]) == v ==> cs[j].link in links
    ensures RecordAll(links, classify, cs, v) == links
  {
    if cs != [] {
      RecordAllKnown(links, classify, cs[..|cs| - 1], v);
    }
  }

  /** `$data_objects` is keyed by class name, so the same class cannot be
      configured twice; but a second class may offer the same records (a
      page subclass alongside `SiteTree`, say). Such a repeated source records
      no new link: the link collections are keyed by link ... */
  lemma RepeatedSourceAddsNoLinks(classify: Candidate -> Verdict, srcs: seq<Source>, i: nat, v: Verdict)
    requires i < |srcs|
    ensures LinksWith(classify, srcs + [srcs[i]], v) == LinksWith(classify, srcs, v)
  {
    var src := srcs[i];
    assert (srcs + [src])[..|srcs|] == srcs;
    if src.usable {
      var prev := LinksWith(classify, srcs, v);
      forall j | 0 <= j < |src.candidates| && classify(src.candidates[j]) == v
        ensures src.candidates[j].link in prev
      {
        assert ClassifiedAt(classify, srcs, i, j, v);
        LinksWithMembers(classify, srcs, v, src.candidates[j].link);
      }
      RecordAllKnown(prev, classify, src.candidates, v);
    }
  }

  /** ... but the group lists are plain lists: each match of records offered
      again by a second class is pushed again and appears at least twice. */
  lemma RepeatedSourceListsTwice(classify: Candidate -> Verdict, srcs: seq<Source>, i: nat, c: Candidate)
    requires i < |srcs| && srcs[i].usable
    requires c in srcs[i].candidates && IsMatch(classify(c))
    ensures multiset(ListOf(GroupedOf(classify, srcs + [srcs[i]]), GroupLabel(srcs[i])))[c] >= 2
  {
    var src, name := srcs[i], GroupLabel(srcs[i]);
    var before := ListOf(GroupedOf(classify, srcs), name);
    assert (srcs + [src])[..|srcs|] == srcs;
    assert ListOf(GroupedOf(classify, srcs + [src]), name) == before + Matched(classify, src.candidates);
    assert ListedBy(classify, srcs, i, name, c);
    GroupedList(classify, srcs, name, c);
    MatchedMembers(classify, src.candidates, c);
    assert multiset(before + Matched(classify, src.candidates))[c]
        == multiset(before)[c] + multiset(Matched(classify, src.candidates))[c];
  }

  lemma FoundConcat(classify: Candidate -> Verdict, a: seq<Source>, b: seq<Source>, v: Verdict, link: string)
    ensures Found(classify, a + b, v, link) <==> Found(classify, a, v, link) || Found(classify, b, v, link)
  {
    if Found(classify, a + b, v, link) {
      FoundInConcat(classify, a, b, v, link);
    }
    if Found(classify, a, v, link) {
      FoundBeforeConcat(classify, a, b, v, link);
    }
    if Found(classify, b, v, link) {
      FoundAfterConcat(classify, a, b, v, link);
    }
  }

  lemma FoundInConcat(classify: Candidate -> Verdict, a: seq<Source>, b: seq<Source>, v: Verdict, link: string)
    requires Found(classify, a + b, v, link)
    ensures Found(classify, a, v, link) || Found(classify, b, v, link)
  {
    var ab := a + b;
    var i, j :| ClassifiedAt(classify, ab, i, j, v) && ab[i].candidates[j].link == link;
    if i < |a| {
      assert ab[i] == a[i];
      assert ClassifiedAt(classify, a, i, j, v);
    } else {
      assert ab[i] == b[i - |a|];
      assert ClassifiedAt(classify, b, i - |a|, j, v);
    }
  }

  lemma FoundBeforeConcat(classify: Candidate -> Verdict, a: seq<Source>, b: seq<Source>, v: Verdict, link: string)
    requires Found(classify, a, v, link)
    ensures Found(classify, a + b, v, link)
  {
    var i, j :| ClassifiedAt(classify, a, i, j, v) && a[i].candidates[j].link == link;
    assert (a + b)[i] == a[i];
    assert ClassifiedAt(classify, a + b, i, j, v);
  }

  lemma FoundAfterConcat(classify: Candidate -> Verdict, a: seq<Source>, b: seq<Source>, v: Verdict, link: string)
    requires Found(classify, b, v, link)
    ensures Found(classify, a + b, v, link)
  {
    var i, j :| ClassifiedAt(classify, b, i, j, v) && b[i].candidates[j].link == link;
    assert (a + b)[i + |a|] == b[i];
    assert ClassifiedAt(classify, a + b, i + |a|, j, v);
  }

  /** The order of the sources changes the order of the links, never which
      links are recorded. */
  lemma SourceOrderKeepsLinks(classify: Candidate -> Verdict, a: seq<Source>, b: seq<Source>, v: Verdict, link: string)
    ensures link in LinksWith(classify, a + b, v) <==> link in LinksWith(classify, b + a, v)
  {
    LinksWithMembers(classify, a + b, v, link);
    LinksWithMembers(classify, b + a, v, link);
    FoundConcat(classify, a, b, v, link);
    FoundConcat(classify, b, a, v, link);
  }

  /** The distinct links carried by candidates with verdict `v`. */
  ghost function FoundLinks(classify: Candidate -> Verdict, srcs: seq<Source>, v: Verdict): set<string>
  {
    set i, j | 0 <= i < |srcs| && 0 <= j < |srcs[i].candidates| && ClassifiedAt(classify, srcs, i, j, v) :: srcs[i].candidates[j].link
  }

  lemma {:induction false} DistinctCount(s: seq<string>)
    requires Distinct(s)
    ensures |set x | x in s| == |s|
  {
    if s != [] {
      var init, last := s[..|s| - 1], s[|s| - 1];
      DistinctCount(init);
      assert (set x | x in s) == (set x | x in init) + {last};
      assert last !in init;
    }
  }

  /** The number of exact (or possible) matches the page reports is the
      number of distinct links found with that verdict. */
  lemma LinkCount(classify: Candidate -> Verdict, srcs: seq<Source>, v: Verdict)
    ensures |LinksWith(classify, srcs, v)| == |FoundLinks(classify, srcs, v)|
  {
    var r := LinksWith(classify, srcs, v);
    forall link
      ensures link in r <==> link in FoundLinks(classify, srcs, v)
    {
      LinksWithMembers(classify, srcs, v, link);
    }
    assert (set x | x in r) == FoundLinks(classify, srcs, v);
    DistinctCount(r);
  }

  /** An empty page key (a request such as "/" or "/.html") is never matched
      phonetically, but it matches exactly every candidate whose relative
      link is truthy yet has no segment, such as "/". */
  lemma EmptyKeyMatches(c: Candidate)
    ensures Classify([], c) != Possible
    ensures Classify([], c) == Exact <==> !Falsy(c.relLink) && Segments(c.relLink) == []
  {
    SoundexForm(LastSegment(c.relLink));
  }
}
