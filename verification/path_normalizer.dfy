/** The page key of a request: the three regular-expression steps at the head
    of `Intelligent404::onAfterInit`, written out as scans over characters.
      1. the longest leading run of `[A-Za-z0-9._-/]` (no run: nothing happens);
      2. one trailing known page extension removed, ignoring case;
      3. the last non-empty `/`-segment of what is left. */
module PathNormalizer {
  import opened Text

  /** The character class `[a-z0-9\.\_\-\/]` matched case-insensitively. */
  predicate IsPathChar(c: char) { IsAlnum(c) || c == '.' || c == '_' || c == '-' || c == '/' }

  /** The characters a page key is made of: a path character other than `/`. */
  predicate IsKeyChar(c: char) { IsAlnum(c) || c == '.' || c == '_' || c == '-' }

  predicate AllPathChars(s: string) { forall i :: 0 <= i < |s| ==> IsPathChar(s[i]) }

  /** The longest prefix of `s` made of path characters (the greedy
      `^([a-z0-9\.\_\-\/]+)`; an empty result means the pattern did not match). */
  function LeadingRun(s: string): (r: string)
    ensures r <= s
    ensures AllPathChars(r)
    ensures |r| == |s| || !IsPathChar(s[|r|])
  {
    if s == [] || !IsPathChar(s[0]) then [] else [s[0]] + LeadingRun(s[1..])
  }

  /** The extensions `aspx?|html?|php[34]?`, lower-case, without the dot. */
  const PageExtensions: seq<string> := ["asp", "aspx", "htm", "html", "php", "php3", "php4"]

  /** `e` is a dot followed by one of the page extensions, in any case. */
  predicate IsPageExtension(e: string) { |e| >= 1 && e[0] == '.' && LowerAll(e[1..]) in PageExtensions }

  lemma PageExtensionLength(e: string)
    requires IsPageExtension(e)
    ensures |e| == 4 || |e| == 5
  {
    var x := LowerAll(e[1..]);
    assert x == "asp" || x == "aspx" || x == "htm" || x == "html" || x == "php" || x == "php3" || x == "php4";
  }

  lemma PageExtensionAlnum(e: string)
    requires IsPageExtension(e)
    ensures forall i :: 1 <= i < |e| ==> IsAlnum(e[i])
  {
    var x := LowerAll(e[1..]);
    assert forall i :: 0 <= i < |x| ==> IsAlnum(x[i]);
    forall i | 1 <= i < |e| ensures IsAlnum(e[i]) {
      assert x[i - 1] == ToLower(e[i]);
    }
  }

  /** The length of the page extension that ends `s`, 0 when there is none.
      A five-character extension is tried first: it starts further left,
      where the regular expression's first match lies. */
  function ExtensionLength(s: string): (n: nat)
    ensures n <= |s|
    ensures n != 0 ==> IsPageExtension(s[|s| - n..])
  {
    if |s| >= 5 && IsPageExtension(s[|s| - 5..]) then 5
    else if |s| >= 4 && IsPageExtension(s[|s| - 4..]) then 4
    else 0
  }

  /** `preg_replace('/\.(aspx?|html?|php[34]?)$/i', '', s)`: at most one page
      extension is removed, and only at the very end. */
  function StripExtension(s: string): (r: string)
    ensures r <= s
    ensures r != s ==> IsPageExtension(s[|r|..])
  {
    s[..|s| - ExtensionLength(s)]
  }

  /** A string is left alone only when no suffix of it is a page extension. */
  lemma StripExtensionKeeps(s: string)
    ensures StripExtension(s) == s <==> forall k :: 0 <= k <= |s| ==> !IsPageExtension(s[k..])
  {
    forall k | 0 <= k <= |s| && IsPageExtension(s[k..]) ensures StripExtension(s) != s {
      StripExtensionRemoves(s, k);
    }
  }

  lemma StripExtensionRemoves(s: string, k: nat)
    requires k <= |s| && IsPageExtension(s[k..])
    ensures |StripExtension(s)| < |s|
  {
    PageExtensionLength(s[k..]);
    if k == |s| - 4 && !(|s| >= 5 && IsPageExtension(s[|s| - 5..])) {
      assert StripExtension(s) == s[..|s| - 4];
    }
  }

  /** The extension removed is unique: no two suffixes of a string are both
      page extensions, so "at most one" and "the one at the end" coincide. */
  lemma PageExtensionSuffixUnique(s: string, k1: nat, k2: nat)
    requires k1 <= k2 <= |s|
    requires IsPageExtension(s[k1..]) && IsPageExtension(s[k2..])
    ensures k1 == k2
  {
    PageExtensionLength(s[k1..]);
    PageExtensionLength(s[k2..]);
    PageExtensionAlnum(s[k1..]);
  }

  /** The page key of `raw`, or None when `raw` does not start with a path
      character (the engine then does nothing). */
  function Normalize(raw: string): (r: Option<string>)
    ensures r.None? <==> (raw == [] || !IsPathChar(raw[0]))
    ensures r.Some? ==> forall i :: 0 <= i < |r.value| ==> IsKeyChar(r.value[i])
  {
    var run := LeadingRun(raw);
    if run == [] then None
    else
      var key := LastSegment(StripExtension(run));
      assert forall i :: 0 <= i < |key| ==> IsKeyChar(key[i]) by {
        forall i | 0 <= i < |key| ensures IsKeyChar(key[i]) {
          assert key[i] in run;
        }
      }
      Some(key)
  }

  lemma {:induction false} LeadingRunOfRunThenStop(p: string, t: string)
    requires AllPathChars(p)
    requires t == [] || !IsPathChar(t[0])
    ensures LeadingRun(p + t) == p
  {
    if p == [] {
      assert p + t == t;
    } else {
      assert (p + t)[1..] == p[1..] + t;
      LeadingRunOfRunThenStop(p[1..], t);
      assert p == [p[0]] + p[1..];
    }
  }

  /** Extraction stops at the first character outside the class, so anything
      after it (a `?query`, a `#fragment`) has no influence on the key. */
  lemma QueryAndFragmentIgnored(p: string, t: string)
    requires AllPathChars(p)
    requires t == [] || !IsPathChar(t[0])
    ensures Normalize(p + t) == Normalize(p)
  {
    LeadingRunOfRunThenStop(p, t);
    LeadingRunOfRunThenStop(p, []);
    assert p + [] == p;
  }

  lemma SplitAfterSlash(s: string, n: nat)
    requires n <= |s|
    ensures ("/" + s)[|s| + 1 - n..] == s[|s| - n..]
    ensures ("/" + s)[..|s| + 1 - n] == "/" + s[..|s| - n]
  {
  }

  /** The last `n` characters after a leading `/` are a page extension just
      when those of the string are (the `/` itself starts no extension). */
  lemma ExtensionAfterSlash(s: string, n: nat)
    requires n == 4 || n == 5
    ensures var t := "/" + s;
            (|t| >= n && IsPageExtension(t[|t| - n..])) == (|s| >= n && IsPageExtension(s[|s| - n..]))
  {
    var t := "/" + s;
    if |s| >= n {
      SplitAfterSlash(s, n);
    } else if |t| >= n {
      assert t[|t| - n..][0] == '/';
    }
  }

  lemma ExtensionLengthAfterSlash(s: string)
    ensures ExtensionLength("/" + s) == ExtensionLength(s)
  {
    ExtensionAfterSlash(s, 5);
    ExtensionAfterSlash(s, 4);
  }

  lemma StripExtensionAfterSlash(s: string)
    ensures StripExtension("/" + s) == "/" + StripExtension(s)
  {
    ExtensionLengthAfterSlash(s);
    SplitAfterSlash(s, ExtensionLength(s));
  }

  /** A leading `/` is irrelevant: `//about-us` has the key of `/about-us`. */
  lemma LeadingSlashIgnored(raw: string)
    requires raw != [] && IsPathChar(raw[0])
    ensures Normalize("/" + raw) == Normalize(raw)
  {
    var t := "/" + raw;
    assert t[1..] == raw;
    var run := LeadingRun(raw);
    assert LeadingRun(t) == "/" + run;
    StripExtensionAfterSlash(run);
    LeadingSlashAddsNoSegment(StripExtension(run));
  }

  lemma SlashEndsNoExtension(e: string)
    requires e != [] && e[|e| - 1] == '/'
    ensures !IsPageExtension(e)
  {
    if |e| > 1 {
      assert e[1..][|e| - 2] == '/';
    }
  }

  /** No page extension ends in `/`. */
  lemma StripExtensionAfterTrailingSlash(q: string)
    requires q != [] && q[|q| - 1] == '/'
    ensures StripExtension(q) == q
  {
    if |q| >= 5 {
      SlashEndsNoExtension(q[|q| - 5..]);
    }
    if |q| >= 4 {
      SlashEndsNoExtension(q[|q| - 4..]);
    }
    assert q[..|q|] == q;
  }

  /** A trailing `/` is irrelevant when the path does not end in a page
      extension: `/about-us/` has the key of `/about-us`. */
  lemma TrailingSlashIgnored(p: string)
    requires p != [] && AllPathChars(p)
    requires StripExtension(p) == p
    ensures Normalize(p + "/") == Normalize(p)
  {
    var q := p + "/";
    LeadingRunOfRunThenStop(q, []);
    LeadingRunOfRunThenStop(p, []);
    assert q + [] == q && p + [] == p;
    StripExtensionAfterTrailingSlash(q);
    TrailingSlashAddsNoSegment(p);
  }

  /** Normalising a key again gives the key back, provided the key does not
      itself end in a page extension. */
  lemma NormalizeKeyAgain(raw: string, key: string)
    requires Normalize(raw) == Some(key)
    requires key != [] && StripExtension(key) == key
    ensures Normalize(key) == Some(key)
  {
    assert forall i :: 0 <= i < |key| ==> IsPathChar(key[i]) && key[i] != '/';
    LeadingRunOfRunThenStop(key, []);
    assert key + [] == key;
    SegmentsWithoutSlash(key);
  }

  lemma LowerHtml()
    ensures LowerAll("html") == "html"
  {
    var l := LowerAll("html");
    assert l[0] == 'h' && l[1] == 't' && l[2] == 'm' && l[3] == 'l';
  }

  /** A path made only of path characters is taken whole. */
  lemma LeadingRunOfPath(p: string)
    requires AllPathChars(p)
    ensures LeadingRun(p) == p
  {
    LeadingRunOfRunThenStop(p, []);
    assert p + [] == p;
  }

  /** ".html" is removed from the end of any path. */
  lemma StripHtml(stem: string)
    ensures StripExtension(stem + ".html") == stem
  {
    var s := stem + ".html";
    LowerHtml();
    assert s[|s| - 5..] == ".html";
    assert ".html"[1..] == "html";
    assert s[..|s| - 5] == stem;
  }

  predicate AllKeyChars(s: string) { forall i :: 0 <= i < |s| ==> IsKeyChar(s[i]) }

  lemma KeyCharsThenHtml(name: string)
    requires AllKeyChars(name)
    ensures AllKeyChars(name + ".html")
  {
    var s := name + ".html";
    forall i | 0 <= i < |s| ensures IsKeyChar(s[i]) {
      if i >= |name| {
        assert s[i] == ".html"[i - |name|];
      }
    }
  }

  /** The key of a path made of path characters, ending in ".html". */
  lemma NormalizeHtmlPath(stem: string, name: string)
    requires AllPathChars(stem) && LastSegment(stem) == name
    ensures Normalize(stem + ".html") == Some(name)
  {
    var p := stem + ".html";
    assert AllPathChars(p) by {
      forall i | 0 <= i < |p| ensures IsPathChar(p[i]) {
        if i >= |stem| {
          assert p[i] == ".html"[i - |stem|];
        }
      }
    }
    LeadingRunOfPath(p);
    StripHtml(stem);
  }

  /** A name without `/` after a single leading `/` is the last segment. */
  lemma LastSegmentOfRootedName(name: string)
    requires name != [] && AllKeyChars(name)
    ensures LastSegment("/" + name) == name
  {
    assert forall i :: 0 <= i < |name| ==> name[i] != '/';
    LeadingSlashAddsNoSegment(name);
    SegmentsWithoutSlash(name);
  }

  /** A name of key characters below the root, ".html" appended, has the
      name as its key: "/abuot-us.html" is looked up as "abuot-us". */
  lemma NormalizeHtmlPage(name: string)
    requires name != [] && AllKeyChars(name)
    ensures Normalize("/" + name + ".html") == Some(name)
  {
    var stem := "/" + name;
    assert AllPathChars(stem) by {
      forall i | 0 <= i < |stem| ensures IsPathChar(stem[i]) {
        if i > 0 {
          assert stem[i] == name[i - 1];
        }
      }
    }
    LastSegmentOfRootedName(name);
    NormalizeHtmlPath(stem, name);
  }

  /** Directories in front of the page are dropped: "/products/widget.html"
      is looked up as "widget", whatever directories lead to it. */
  lemma NormalizeNestedHtmlPage(dir: string, name: string)
    requires AllPathChars(dir)
    requires name != [] && AllKeyChars(name)
    ensures Normalize(dir + "/" + name + ".html") == Some(name)
  {
    var stem := dir + "/" + name;
    assert AllPathChars(stem) by {
      forall i | 0 <= i < |stem| ensures IsPathChar(stem[i]) {
        if i > |dir| {
          assert stem[i] == name[i - |dir| - 1];
        }
      }
    }
    LastSegmentOfJoin(dir, name);
    NormalizeHtmlPath(stem, name);
  }

  /** A bare name of key characters with ".html" appended has the name as its key. */
  lemma NormalizeHtmlName(name: string)
    requires name != [] && AllKeyChars(name)
    ensures Normalize(name + ".html") == Some(name)
  {
    assert forall i :: 0 <= i < |name| ==> name[i] != '/' && IsPathChar(name[i]);
    SegmentsWithoutSlash(name);
    NormalizeHtmlPath(name, name);
  }

  /** Renormalising a key is not always the identity: a key that itself ends
      in a page extension loses it the second time, as only one extension is
      removed per pass ("/a.html.html" has the key "a.html", whose key is "a"). */
  lemma NormalizeNotIdempotent(name: string)
    requires name != [] && AllKeyChars(name)
    ensures Normalize("/" + (name + ".html") + ".html") == Some(name + ".html")
    ensures Normalize(name + ".html") == Some(name)
  {
    KeyCharsThenHtml(name);
    NormalizeHtmlPage(name + ".html");
    NormalizeHtmlName(name);
  }

  /** Extensions are stripped before splitting, so only the very end of the
      path counts: "/foo.html/" keeps "foo.html" as its key ... */
  lemma ExtensionBeforeTrailingSlashKept(name: string)
    requires name != [] && AllKeyChars(name)
    ensures Normalize("/" + name + ".html" + "/") == Some(name + ".html")
  {
    var p := "/" + name + ".html";
    var q := p + "/";
    KeyCharsThenHtml(name);
    assert p == "/" + (name + ".html");
    assert AllPathChars(q) by {
      forall i | 0 <= i < |q| ensures IsPathChar(q[i]) {
        if 0 < i < |p| {
          assert q[i] == (name + ".html")[i - 1];
        }
      }
    }
    LeadingRunOfPath(q);
    StripExtensionAfterTrailingSlash(q);
    TrailingSlashAddsNoSegment(p);
    LastSegmentOfRootedName(name + ".html");
  }

  /** ... while "/foo/.html" loses the extension and has the key "foo". */
  lemma ExtensionAfterSlashStripped(name: string)
    requires name != [] && AllKeyChars(name)
    ensures Normalize("/" + name + "/" + ".html") == Some(name)
  {
    var stem := "/" + name + "/";
    assert AllPathChars(stem) by {
      forall i | 0 <= i < |stem| ensures IsPathChar(stem[i]) {
        if 0 < i < |stem| - 1 {
          assert stem[i] == name[i - 1];
        }
      }
    }
    LastSegmentOfDirectory(name);
    NormalizeHtmlPath(stem, name);
  }

  /** A name without `/` between two `/` is the last segment. */
  lemma LastSegmentOfDirectory(name: string)
    requires name != [] && AllKeyChars(name)
    ensures LastSegment("/" + name + "/") == name
  {
    var rooted := "/" + name;
    TrailingSlashAddsNoSegment(rooted);
    LastSegmentOfRootedName(name);
    assert LastSegment(rooted + "/") == LastSegment(rooted);
  }
}
