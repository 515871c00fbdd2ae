/** The search query offered to the error page's template when matches are
    listed: the page key passed through two replacements,
      1. every run of characters outside `[A-Za-z0-9\-_.]` is removed;
      2. every run of `_` and `-` becomes a single space. */
module QuerySanitizer {
  import opened Text
  import opened PathNormalizer

  predicate IsDash(c: char) { c == '_' || c == '-' }

  /** Step 1: the characters of `s` that may appear in a page key, in order. */
  function KeepAllowed(s: string): (r: string)
    ensures |r| <= |s|
    ensures forall i :: 0 <= i < |r| ==> IsKeyChar(r[i])
    ensures (forall i :: 0 <= i < |s| ==> IsKeyChar(s[i])) ==> r == s
  {
    if s == [] then []
    else if IsKeyChar(s[0]) then [s[0]] + KeepAllowed(s[1..])
    else KeepAllowed(s[1..])
  }

  /** What follows the run of dashes at the head of `s`. */
  function SkipDashes(s: string): (r: string)
    ensures |r| <= |s|
    ensures r == s[|s| - |r|..]
    ensures r == [] || !IsDash(r[0])
    ensures forall i :: 0 <= i < |s| - |r| ==> IsDash(s[i])
  {
    if s != [] && IsDash(s[0]) then SkipDashes(s[1..]) else s
  }

  /** Step 2: each maximal run of dashes replaced by one space. */
  function DashesToSpaces(s: string): (r: string)
    ensures |r| <= |s|
    decreases |s|
  {
    if s == [] then []
    else if IsDash(s[0]) then [' '] + DashesToSpaces(SkipDashes(s[1..]))
    else [s[0]] + DashesToSpaces(s[1..])
  }

  /** No dash survives step 2; every other character is a space or comes from `s`;
      the result starts with a space exactly when `s` starts with a dash or a space. */
  lemma {:induction false} DashesToSpacesChars(s: string)
    ensures forall i :: 0 <= i < |DashesToSpaces(s)| ==>
              !IsDash(DashesToSpaces(s)[i]) && (DashesToSpaces(s)[i] == ' ' || DashesToSpaces(s)[i] in s)
    ensures s != [] ==> DashesToSpaces(s) != [] && (DashesToSpaces(s)[0] == ' ' <==> IsDash(s[0]) || s[0] == ' ')
    decreases |s|
  {
    if s != [] {
      var r := DashesToSpaces(s);
      if IsDash(s[0]) {
        var t := SkipDashes(s[1..]);
        DashesToSpacesChars(t);
        forall i | 0 <= i < |r| ensures !IsDash(r[i]) && (r[i] == ' ' || r[i] in s) {
          if i > 0 {
            assert r[i] == DashesToSpaces(t)[i - 1];
            if r[i] != ' ' {
              assert r[i] in t;
              assert t == s[|s| - |t|..];
            }
          }
        }
      } else {
        DashesToSpacesChars(s[1..]);
        forall i | 0 <= i < |r| ensures !IsDash(r[i]) && (r[i] == ' ' || r[i] in s) {
          if i > 0 {
            assert r[i] == DashesToSpaces(s[1..])[i - 1];
          }
        }
      }
    }
  }

  lemma NoSpacesInSuffix(s: string, k: nat)
    requires k <= |s| && forall i :: 0 <= i < |s| ==> s[i] != ' '
    ensures forall i :: 0 <= i < |s| - k ==> s[k..][i] != ' '
  {
  }

  /** Step 2 never writes two spaces in a row into a string without spaces:
      a run of dashes is replaced as a whole. */
  lemma {:induction false} NoDoubleSpaces(s: string)
    requires forall i :: 0 <= i < |s| ==> s[i] != ' '
    ensures forall i :: 0 <= i < |DashesToSpaces(s)| - 1 ==> !(DashesToSpaces(s)[i] == ' ' && DashesToSpaces(s)[i + 1] == ' ')
    decreases |s|
  {
    if s != [] {
      var r := DashesToSpaces(s);
      var t := if IsDash(s[0]) then SkipDashes(s[1..]) else s[1..];
      NoSpacesInSuffix(s, |s| - |t|);
      NoDoubleSpaces(t);
      DashesToSpacesChars(t);
      assert r == [r[0]] + DashesToSpaces(t);
      forall i | 0 <= i < |r| - 1 ensures !(r[i] == ' ' && r[i + 1] == ' ') {
        if i > 0 {
          assert r[i] == DashesToSpaces(t)[i - 1] && r[i + 1] == DashesToSpaces(t)[i];
        } else if r[0] == ' ' {
          assert r[1] == DashesToSpaces(t)[0];
        }
      }
    }
  }

  /** The search query for page key `key`. */
  function Sanitize(key: string): (r: string)
    ensures |r| <= |key|
    ensures forall i :: 0 <= i < |r| ==> IsAlnum(r[i]) || r[i] == '.' || r[i] == ' '
    ensures forall i :: 0 <= i < |r| - 1 ==> !(r[i] == ' ' && r[i + 1] == ' ')
  {
    var kept := KeepAllowed(key);
    DashesToSpacesChars(kept);
    NoDoubleSpaces(kept);
    var r := DashesToSpaces(kept);
    assert forall i :: 0 <= i < |r| ==> IsAlnum(r[i]) || r[i] == '.' || r[i] == ' ' by {
      forall i | 0 <= i < |r| ensures IsAlnum(r[i]) || r[i] == '.' || r[i] == ' ' {
        if r[i] != ' ' {
          assert r[i] in kept;
        }
      }
    }
    r
  }

  /** The letters, digits and dots of `s`, in order: what a reader of the
      query sees once separators are ignored. */
  function Plain(s: string): (r: string)
    ensures |r| <= |s|
  {
    if s == [] then []
    else if IsAlnum(s[0]) || s[0] == '.' then [s[0]] + Plain(s[1..])
    else Plain(s[1..])
  }

  lemma {:induction false} PlainOfKeepAllowed(s: string)
    ensures Plain(KeepAllowed(s)) == Plain(s)
  {
    if s != [] {
      PlainOfKeepAllowed(s[1..]);
      if IsKeyChar(s[0]) {
        assert ([s[0]] + KeepAllowed(s[1..]))[1..] == KeepAllowed(s[1..]);
      }
    }
  }

  lemma {:induction false} PlainOfSkipDashes(s: string)
    ensures Plain(SkipDashes(s)) == Plain(s)
  {
    if s != [] && IsDash(s[0]) {
      calc {
        Plain(SkipDashes(s));
        Plain(SkipDashes(s[1..]));
        { PlainOfSkipDashes(s[1..]); }
        Plain(s[1..]);
        Plain(s);
      }
    }
  }

  lemma PlainCons(c: char, x: string)
    ensures Plain([c] + x) == if IsAlnum(c) || c == '.' then [c] + Plain(x) else Plain(x)
  {
    assert ([c] + x)[1..] == x;
  }

  lemma {:induction false} PlainOfDashesToSpaces(s: string)
    ensures Plain(DashesToSpaces(s)) == Plain(s)
    decreases |s|
  {
    if s != [] {
      if IsDash(s[0]) {
        var t := SkipDashes(s[1..]);
        var d := DashesToSpaces(t);
        calc {
          Plain(DashesToSpaces(s));
          Plain([' '] + d);
          { PlainCons(' ', d); }
          Plain(d);
          { PlainOfDashesToSpaces(t); }
          Plain(t);
          { PlainOfSkipDashes(s[1..]); }
          Plain(s[1..]);
          Plain(s);
        }
      } else {
        var d := DashesToSpaces(s[1..]);
        calc {
          Plain(DashesToSpaces(s));
          Plain([s[0]] + d);
          { PlainCons(s[0], d); }
          if IsAlnum(s[0]) || s[0] == '.' then [s[0]] + Plain(d) else Plain(d);
          { PlainOfDashesToSpaces(s[1..]); }
          Plain(s);
        }
      }
    }
  }

  /** Nothing but separators is lost: ignoring spaces, dashes and removed
      characters, the query reads exactly as the key. */
  lemma SanitizeKeepsLettersDigitsAndDots(key: string)
    ensures Plain(Sanitize(key)) == Plain(key)
  {
    PlainOfDashesToSpaces(KeepAllowed(key));
    PlainOfKeepAllowed(key);
  }

  /** A key without dashes reaches the template unchanged. */
  lemma {:induction false} SanitizeWithoutDashes(key: string)
    requires forall i :: 0 <= i < |key| ==> IsAlnum(key[i]) || key[i] == '.'
    ensures Sanitize(key) == key
  {
    NoDashesUnchanged(key);
  }

  lemma {:induction false} NoDashesUnchanged(s: string)
    requires forall i :: 0 <= i < |s| ==> !IsDash(s[i])
    ensures DashesToSpaces(s) == s
  {
    if s != [] {
      NoDashesUnchanged(s[1..]);
      assert s == [s[0]] + s[1..];
    }
  }

  lemma {:induction false} KeepAllowedPrefix(p: string, t: string)
    requires forall i :: 0 <= i < |p| ==> IsKeyChar(p[i])
    ensures KeepAllowed(p + t) == p + KeepAllowed(t)
  {
    if p == [] {
      assert p + t == t;
    } else {
      assert (p + t)[1..] == p[1..] + t;
      KeepAllowedPrefix(p[1..], t);
      assert p == [p[0]] + p[1..];
    }
  }

  lemma {:induction false} DashesAfterWord(w: string, t: string)
    requires forall i :: 0 <= i < |w| ==> !IsDash(w[i])
    ensures DashesToSpaces(w + t) == w + DashesToSpaces(t)
  {
    if w == [] {
      assert w + t == t;
    } else {
      assert (w + t)[1..] == w[1..] + t;
      DashesAfterWord(w[1..], t);
      assert w == [w[0]] + w[1..];
    }
  }

  /** `s` is empty or does not end in a dash: a dash run cannot continue past it. */
  predicate EndsOutsideRun(s: string) { s == [] || !IsDash(s[|s| - 1]) }

  /** A dash run that ends inside `a` is skipped without touching what follows `a`. */
  lemma {:induction false} SkipDashesAppend(a: string, t: string)
    requires a != [] && !IsDash(a[|a| - 1])
    ensures SkipDashes(a + t) == SkipDashes(a) + t
    ensures SkipDashes(a) != [] && EndsOutsideRun(SkipDashes(a))
  {
    if IsDash(a[0]) {
      assert |a| > 1;
      calc {
        SkipDashes(a + t);
        { assert (a + t)[0] == a[0]; }
        SkipDashes((a + t)[1..]);
        { assert (a + t)[1..] == a[1..] + t; }
        SkipDashes(a[1..] + t);
        { SkipDashesAppend(a[1..], t); }
        SkipDashes(a[1..]) + t;
        SkipDashes(a) + t;
      }
      SkipDashesAppend(a[1..], t);
    } else {
      assert (a + t)[0] == a[0];
    }
  }

  /** A whole run of dashes is skipped, up to the first character after it. */
  lemma {:induction false} SkipDashRun(run: string, q: string)
    requires forall i :: 0 <= i < |run| ==> IsDash(run[i])
    requires q == [] || !IsDash(q[0])
    ensures SkipDashes(run + q) == q
  {
    if run == [] {
      assert run + q == q;
    } else {
      assert (run + q)[1..] == run[1..] + q;
      SkipDashRun(run[1..], q);
    }
  }

  lemma AppendAssoc(a: string, b: string, c: string)
    ensures a + (b + c) == a + b + c
  {
  }

  /** One step of step 2 on `p + t` when `p` starts with a dash run that
      ends inside it. */
  lemma DashHeadStep(p: string, t: string)
    requires p != [] && IsDash(p[0]) && EndsOutsideRun(p)
    ensures var rest := SkipDashes(p[1..]);
      && |rest| < |p| && EndsOutsideRun(rest)
      && DashesToSpaces(p) == [' '] + DashesToSpaces(rest)
      && DashesToSpaces(p + t) == [' '] + DashesToSpaces(rest + t)
  {
    assert (p + t)[0] == p[0] && (p + t)[1..] == p[1..] + t;
    SkipDashesAppend(p[1..], t);
  }

  /** One step of step 2 on `p + t` when `p` starts with a character other
      than a dash. */
  lemma OtherHeadStep(p: string, t: string)
    requires p != [] && !IsDash(p[0])
    ensures DashesToSpaces(p + t) == [p[0]] + DashesToSpaces(p[1..] + t)
  {
    assert (p + t)[0] == p[0] && (p + t)[1..] == p[1..] + t;
  }

  /** Step 2 works piece by piece when the first piece does not end inside a
      dash run. */
  lemma {:induction false} DashesToSpacesAppend(p: string, t: string)
    requires EndsOutsideRun(p)
    ensures DashesToSpaces(p + t) == DashesToSpaces(p) + DashesToSpaces(t)
    decreases |p|
  {
    if p == [] {
      assert p + t == t;
    } else if IsDash(p[0]) {
      var rest := SkipDashes(p[1..]);
      DashHeadStep(p, t);
      var a, b := DashesToSpaces(rest), DashesToSpaces(t);
      calc {
        DashesToSpaces(p + t);
        [' '] + DashesToSpaces(rest + t);
        { DashesToSpacesAppend(rest, t); }
        [' '] + (a + b);
        { AppendAssoc([' '], a, b); }
        ([' '] + a) + b;
        DashesToSpaces(p) + b;
      }
    } else {
      OtherHeadStep(p, t);
      assert p[1..] == [] || !IsDash(p[|p| - 1]);
      var a, b := DashesToSpaces(p[1..]), DashesToSpaces(t);
      calc {
        DashesToSpaces(p + t);
        [p[0]] + DashesToSpaces(p[1..] + t);
        { DashesToSpacesAppend(p[1..], t); }
        [p[0]] + (a + b);
        { AppendAssoc([p[0]], a, b); }
        ([p[0]] + a) + b;
        DashesToSpaces(p) + b;
      }
    }
  }

  /** Every maximal run of `_` and `-`, however long and wherever it stands
      (first, between two parts, last), becomes exactly one space:
      "a--b" gives "a b", "ab-" gives "ab ". */
  lemma DashRunBecomesSpace(p: string, run: string, q: string)
    requires run != [] && forall i :: 0 <= i < |run| ==> IsDash(run[i])
    requires EndsOutsideRun(p)
    requires q == [] || !IsDash(q[0])
    ensures DashesToSpaces(p + run + q) == DashesToSpaces(p) + " " + DashesToSpaces(q)
  {
    var t := run + q;
    calc {
      DashesToSpaces(p + run + q);
      { assert p + run + q == p + t; }
      DashesToSpaces(p + t);
      { DashesToSpacesAppend(p, t); }
      DashesToSpaces(p) + DashesToSpaces(t);
      { DashRunThen(run, q); }
      DashesToSpaces(p) + (" " + DashesToSpaces(q));
      { AppendAssoc(DashesToSpaces(p), " ", DashesToSpaces(q)); }
      DashesToSpaces(p) + " " + DashesToSpaces(q);
    }
  }

  lemma DashRunThen(run: string, q: string)
    requires run != [] && forall i :: 0 <= i < |run| ==> IsDash(run[i])
    requires q == [] || !IsDash(q[0])
    ensures DashesToSpaces(run + q) == " " + DashesToSpaces(q)
  {
    assert (run + q)[1..] == run[1..] + q;
    SkipDashRun(run[1..], q);
  }

  /** A word of the query: letters, digits and dots, at least one of them. */
  predicate IsWord(w: string) { w != [] && forall m :: 0 <= m < |w| ==> IsAlnum(w[m]) || w[m] == '.' }

  /** A non-empty run of `_` and `-`. */
  predicate IsDashRun(r: string) { r != [] && forall m :: 0 <= m < |r| ==> IsDash(r[m]) }

  /** `words` with the dash run `seps[k]` between `words[k]` and `words[k + 1]`. */
  function Interleave(words: seq<string>, seps: seq<string>): (r: string)
    requires |words| == |seps| + 1
    ensures words[0] <= r
  {
    if seps == [] then words[0] else words[0] + (seps[0] + Interleave(words[1..], seps[1..]))
  }

  lemma {:induction false} InterleaveKeyChars(words: seq<string>, seps: seq<string>)
    requires |words| == |seps| + 1
    requires forall k :: 0 <= k < |words| ==> IsWord(words[k])
    requires forall k :: 0 <= k < |seps| ==> IsDashRun(seps[k])
    ensures forall i :: 0 <= i < |Interleave(words, seps)| ==> IsKeyChar(Interleave(words, seps)[i])
  {
    var r := Interleave(words, seps);
    assert IsWord(words[0]);
    if seps != [] {
      var w, sep := words[0], seps[0];
      var rest := Interleave(words[1..], seps[1..]);
      assert IsDashRun(sep);
      InterleaveKeyChars(words[1..], seps[1..]);
      forall i | 0 <= i < |r| ensures IsKeyChar(r[i]) {
        if |w| <= i < |w| + |sep| {
          assert r[i] == sep[i - |w|];
        } else if i >= |w| + |sep| {
          assert r[i] == rest[i - |w| - |sep|];
        }
      }
    }
  }

  lemma {:induction false} KeepAllowedNone(s: string)
    requires forall i :: 0 <= i < |s| ==> !IsKeyChar(s[i])
    ensures KeepAllowed(s) == []
  {
    if s != [] {
      KeepAllowedNone(s[1..]);
    }
  }

  /** Words separated by runs of dashes and underscores become the words
      separated by single spaces: "my__page-name" gives "my page name". */
  lemma {:induction false} DashesBetweenWords(words: seq<string>, seps: seq<string>)
    requires |words| == |seps| + 1
    requires forall k :: 0 <= k < |words| ==> IsWord(words[k])
    requires forall k :: 0 <= k < |seps| ==> IsDashRun(seps[k])
    ensures DashesToSpaces(Interleave(words, seps)) == Join(words, ' ')
  {
    var w := words[0];
    assert IsWord(w);
    NoDashesUnchanged(w);
    if seps != [] {
      var sep := seps[0];
      var rest := Interleave(words[1..], seps[1..]);
      assert IsDashRun(sep);
      assert IsWord(words[1]);
      assert rest[0] == words[1][0];
      calc {
        DashesToSpaces(Interleave(words, seps));
        { assert Interleave(words, seps) == w + sep + rest; }
        DashesToSpaces(w + sep + rest);
        { DashRunBecomesSpace(w, sep, rest); }
        DashesToSpaces(w) + " " + DashesToSpaces(rest);
        { DashesBetweenWords(words[1..], seps[1..]); }
        w + " " + Join(words[1..], ' ');
        Join(words, ' ');
      }
    }
  }

  /** Words separated by runs of dashes and underscores, followed by
      characters a key cannot hold, come out as the words separated by single
      spaces: "my__page-name!!" gives "my page name". */
  lemma SanitizeDashSeparatedWords(words: seq<string>, seps: seq<string>, junk: string)
    requires |words| == |seps| + 1
    requires forall k :: 0 <= k < |words| ==> IsWord(words[k])
    requires forall k :: 0 <= k < |seps| ==> IsDashRun(seps[k])
    requires forall i :: 0 <= i < |junk| ==> !IsKeyChar(junk[i])
    ensures Sanitize(Interleave(words, seps) + junk) == Join(words, ' ')
  {
    var p := Interleave(words, seps);
    InterleaveKeyChars(words, seps);
    KeepAllowedPrefix(p, junk);
    KeepAllowedNone(junk);
    assert p + [] == p;
    DashesBetweenWords(words, seps);
  }
}
