/** Characters, ASCII case mapping and the `/`-splitting that PHP's
    `preg_split('/\//', $s, -1, PREG_SPLIT_NO_EMPTY)` performs. Strings are
    sequences of characters; only the ASCII letters take part in case
    mapping, as PHP's byte-oriented `toupper` does in the "C" locale. */
module Text {

  datatype Option<+T> = None | Some(value: T)

  predicate IsLower(c: char) { 'a' <= c <= 'z' }
  predicate IsUpper(c: char) { 'A' <= c <= 'Z' }
  predicate IsLetter(c: char) { IsLower(c) || IsUpper(c) }
  predicate IsDigit(c: char) { '0' <= c <= '9' }
  predicate IsAlnum(c: char) { IsLetter(c) || IsDigit(c) }

  /** A string PHP treats as false: the empty string and "0". */
  predicate Falsy(s: string) { s == [] || s == "0" }

  /** `s` consists of the characters of the word `w`, position by position. */
  predicate Spells(s: string, w: string) { |s| == |w| && forall i :: 0 <= i < |w| ==> s[i] == w[i] }

  /** ASCII upper-casing; every other character is left alone. */
  function ToUpper(c: char): (u: char)
    ensures IsLetter(c) <==> IsLetter(u)
    ensures IsLetter(c) ==> IsUpper(u)
    ensures IsUpper(c) || !IsLetter(c) ==> u == c
  {
    if IsLower(c) then (c as int - 32) as char else c
  }

  /** ASCII lower-casing; every other character is left alone. */
  function ToLower(c: char): (l: char)
    ensures IsLetter(c) <==> IsLetter(l)
    ensures IsLetter(c) ==> IsLower(l)
    ensures IsLower(c) || !IsLetter(c) ==> l == c
  {
    if IsUpper(c) then (c as int + 32) as char else c
  }

  function UpperAll(s: string): (r: string)
    ensures |r| == |s|
    ensures forall i :: 0 <= i < |s| ==> r[i] == ToUpper(s[i])
  {
    if s == [] then [] else [ToUpper(s[0])] + UpperAll(s[1..])
  }

  function LowerAll(s: string): (r: string)
    ensures |r| == |s|
    ensures forall i :: 0 <= i < |s| ==> r[i] == ToLower(s[i])
  {
    if s == [] then [] else [ToLower(s[0])] + LowerAll(s[1..])
  }

  /** All pieces of `s` between occurrences of `d`, empty pieces included
      (the plain split; there is always at least one piece). */
  function Split(s: string, d: char): (r: seq<string>)
    ensures |r| >= 1
    ensures forall k, m :: 0 <= k < |r| && 0 <= m < |r[k]| ==> r[k][m] != d && r[k][m] in s
  {
    if s == [] then [[]]
    else
      var rest := Split(s[1..], d);
      if s[0] == d then [[]] + rest
      else [[s[0]] + rest[0]] + rest[1..]
  }

  /** The pieces joined back together with `d` between them. */
  function Join(parts: seq<string>, d: char): string
  {
    if parts == [] then []
    else if |parts| == 1 then parts[0]
    else parts[0] + [d] + Join(parts[1..], d)
  }

  /** Prepending a character to the first piece prepends it to the join. */
  lemma JoinExtendFirst(c: char, parts: seq<string>, d: char)
    requires parts != []
    ensures Join([[c] + parts[0]] + parts[1..], d) == [c] + Join(parts, d)
  {
    var q := [[c] + parts[0]] + parts[1..];
    if |parts| > 1 {
      assert q[1..] == parts[1..];
    }
  }

  /** An empty first piece contributes only its delimiter. */
  lemma JoinEmptyFirst(parts: seq<string>, d: char)
    requires parts != []
    ensures Join([[]] + parts, d) == [d] + Join(parts, d)
  {
    var q := [[]] + parts;
    assert q[1..] == parts;
  }

  /** Splitting and joining again gives back the original string. */
  lemma {:induction false} SplitThenJoin(s: string, d: char)
    ensures Join(Split(s, d), d) == s
  {
    if s != [] {
      var rest := Split(s[1..], d);
      if s[0] == d {
        calc {
          Join(Split(s, d), d);
          Join([[]] + rest, d);
          { JoinEmptyFirst(rest, d); }
          [d] + Join(rest, d);
          { SplitThenJoin(s[1..], d); }
          [s[0]] + s[1..];
          s;
        }
      } else {
        calc {
          Join(Split(s, d), d);
          Join([[s[0]] + rest[0]] + rest[1..], d);
          { JoinExtendFirst(s[0], rest, d); }
          [s[0]] + Join(rest, d);
          { SplitThenJoin(s[1..], d); }
          [s[0]] + s[1..];
          s;
        }
      }
    }
  }

  /** The non-empty pieces, in their original order. */
  function DropEmpty(parts: seq<string>): (r: seq<string>)
    ensures |r| <= |parts|
    ensures forall k :: 0 <= k < |r| ==> r[k] != [] && r[k] in parts
    ensures forall k :: 0 <= k < |parts| && parts[k] != [] ==> parts[k] in r
  {
    if parts == [] then []
    else if parts[0] == [] then DropEmpty(parts[1..])
    else [parts[0]] + DropEmpty(parts[1..])
  }

  /** The non-empty `/`-separated segments of `s`, in order. */
  function Segments(s: string): (r: seq<string>)
    ensures forall k :: 0 <= k < |r| ==> r[k] != []
    ensures forall k, m :: 0 <= k < |r| && 0 <= m < |r[k]| ==> r[k][m] != '/' && r[k][m] in s
  {
    var r := DropEmpty(Split(s, '/'));
    assert forall k :: 0 <= k < |r| ==> r[k] in Split(s, '/');
    r
  }

  /** The last non-empty segment of `s`; the empty string when there is none
      (PHP's `array_pop`/`end` on an empty array, cast back to a string). */
  function LastSegment(s: string): (r: string)
    ensures forall m :: 0 <= m < |r| ==> r[m] != '/' && r[m] in s
    ensures r == [] <==> Segments(s) == []
  {
    var parts := Segments(s);
    if parts == [] then [] else parts[|parts| - 1]
  }

  lemma {:induction false} DropEmptyAppend(a: seq<string>, b: seq<string>)
    ensures DropEmpty(a + b) == DropEmpty(a) + DropEmpty(b)
  {
    if a != [] {
      assert (a + b)[1..] == a[1..] + b;
      DropEmptyAppend(a[1..], b);
    } else {
      assert a + b == b;
    }
  }

  lemma {:induction false} SplitAppendDelimiter(s: string, d: char)
    ensures Split(s + [d], d) == Split(s, d) + [[]]
  {
    if s == [] {
      assert Split([d], d) == [[]] + Split([], d);
    } else {
      assert (s + [d])[1..] == s[1..] + [d];
      SplitAppendDelimiter(s[1..], d);
    }
  }

  /** A leading `/` adds no segment. */
  lemma LeadingSlashAddsNoSegment(s: string)
    ensures Segments("/" + s) == Segments(s)
  {
    assert ("/" + s)[1..] == s;
    assert Split("/" + s, '/') == [[]] + Split(s, '/');
  }

  /** A trailing `/` adds no segment. */
  lemma TrailingSlashAddsNoSegment(s: string)
    ensures Segments(s + "/") == Segments(s)
  {
    SplitAppendDelimiter(s, '/');
    DropEmptyAppend(Split(s, '/'), [[]]);
  }

  /** A string without `/` is its own single segment (or none, if empty). */
  lemma {:induction false} SegmentsWithoutSlash(s: string)
    requires forall i :: 0 <= i < |s| ==> s[i] != '/'
    ensures Split(s, '/') == [s]
    ensures s != [] ==> Segments(s) == [s]
  {
    if s != [] {
      SegmentsWithoutSlash(s[1..]);
      assert [s[0]] + s[1..] == s;
    }
  }

  /** A delimiter between two strings separates their pieces: the split of
      the whole is the split of the left part followed by that of the right. */
  lemma {:induction false} SplitConcatDelimiter(p: string, q: string, d: char)
    ensures Split(p + [d] + q, d) == Split(p, d) + Split(q, d)
  {
    if p == [] {
      assert p + [d] + q == [d] + q;
      assert ([d] + q)[1..] == q;
    } else {
      assert (p + [d] + q)[1..] == p[1..] + [d] + q;
      SplitConcatDelimiter(p[1..], q, d);
    }
  }

  /** Joining two paths with `/` keeps every segment of both, in order. */
  lemma SegmentsOfJoin(p: string, q: string)
    ensures Segments(p + "/" + q) == Segments(p) + Segments(q)
  {
    SplitConcatDelimiter(p, q, '/');
    DropEmptyAppend(Split(p, '/'), Split(q, '/'));
  }

  /** The last segment of a path is its final non-empty `/`-free piece,
      whatever comes before it. */
  lemma LastSegmentOfJoin(p: string, q: string)
    requires q != [] && forall i :: 0 <= i < |q| ==> q[i] != '/'
    ensures LastSegment(p + "/" + q) == q
  {
    SegmentsOfJoin(p, q);
    SegmentsWithoutSlash(q);
    var parts := Segments(p + "/" + q);
    assert parts[|parts| - 1] == q;
  }
}
