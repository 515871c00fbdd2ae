/** PHP's built-in `soundex`, the American Soundex code the engine compares
    page keys with (src/Intelligent404.php, lines 85 and 135).

    The rules, as PHP applies them:
      - letters are upper-cased; every other character is skipped entirely
        (it takes no slot and does not touch adjacency);
      - the first letter is kept; its own digit group seeds the adjacency test,
        so a following letter of the same group is not coded;
      - each later letter has a digit ('1'..'6'), or none for A E I O U Y H W;
        a letter is coded only when its group differs from the previous
        letter's, and every letter, coded or not, becomes the new previous one:
        vowels, Y, H and W all separate two letters of the same group;
      - the digits are truncated or padded with '0' to exactly three;
      - the empty string has the empty code, and a non-empty string without
        letters the code "0000". */
module PhoneticEncoder {
  import opened Text

  /** The digit group of an upper-case letter; '0' for "no digit". */
  function Code(c: char): (d: char)
    ensures '0' <= d <= '6'
  {
    match c
    case 'B' | 'F' | 'P' | 'V' => '1'
    case 'C' | 'G' | 'J' | 'K' | 'Q' | 'S' | 'X' | 'Z' => '2'
    case 'D' | 'T' => '3'
    case 'L' => '4'
    case 'M' | 'N' => '5'
    case 'R' => '6'
    case _ => '0'
  }

  /** The letters of `s`, upper-cased, in order; everything else dropped. */
  function Letters(s: string): (r: string)
    ensures |r| <= |s|
    ensures forall i :: 0 <= i < |r| ==> IsUpper(r[i])
  {
    if s == [] then []
    else if IsLetter(s[0]) then [ToUpper(s[0])] + Letters(s[1..])
    else Letters(s[1..])
  }

  /** The digits coded for the letters `ls`, the previous letter's group being `last`. */
  function Digits(ls: string, last: char): (r: string)
    ensures forall i :: 0 <= i < |r| ==> '1' <= r[i] <= '6'
  {
    if ls == [] then []
    else
      var c := Code(ls[0]);
      (if c == last || c == '0' then [] else [c]) + Digits(ls[1..], c)
  }

  /** Exactly three digits: the first three, or all of them padded with '0'. */
  function Pad3(d: string): (r: string)
    ensures |r| == 3
    ensures |d| >= 3 ==> r == d[..3]
    ensures |d| < 3 ==> r[..|d|] == d && forall i :: |d| <= i < 3 ==> r[i] == '0'
  {
    if |d| >= 3 then d[..3] else d + seq(3 - |d|, _ => '0')
  }

  function Soundex(s: string): (r: string)
    ensures r == [] <==> s == []
    ensures s != [] ==> |r| == 4
  {
    var ls := Letters(s);
    if s == [] then []
    else if ls == [] then "0000"
    else [ls[0]] + Pad3(Digits(ls[1..], Code(ls[0])))
  }

  /** The form of a code: empty only for the empty string; otherwise the
      first letter upper-cased (or '0' when there is no letter) and three
      digits from '0' to '6'. */
  lemma SoundexForm(s: string)
    ensures Soundex(s) == [] <==> s == []
    ensures s != [] ==> |Soundex(s)| == 4
    ensures s != [] && Letters(s) == [] ==> Soundex(s) == "0000"
    ensures Letters(s) != [] ==> Soundex(s)[0] == Letters(s)[0] && IsUpper(Soundex(s)[0])
    ensures forall i :: 1 <= i < |Soundex(s)| ==> '0' <= Soundex(s)[i] <= '6'
  {
  }

  lemma {:induction false} LettersAppend(a: string, b: string)
    ensures Letters(a + b) == Letters(a) + Letters(b)
  {
    if a == [] {
      assert a + b == b;
    } else {
      assert (a + b)[1..] == a[1..] + b;
      LettersAppend(a[1..], b);
    }
  }

  lemma {:induction false} LettersIgnoreCase(s: string)
    ensures Letters(UpperAll(s)) == Letters(s)
    ensures Letters(LowerAll(s)) == Letters(s)
  {
    if s != [] {
      LettersIgnoreCase(s[1..]);
      assert UpperAll(s)[1..] == UpperAll(s[1..]);
      assert LowerAll(s)[1..] == LowerAll(s[1..]);
      if IsLetter(s[0]) {
        assert ToUpper(ToLower(s[0])) == ToUpper(s[0]);
      }
    }
  }

  /** The code ignores case. */
  lemma SoundexIgnoresCase(s: string)
    ensures Soundex(UpperAll(s)) == Soundex(s)
    ensures Soundex(LowerAll(s)) == Soundex(s)
  {
    LettersIgnoreCase(s);
  }

  /** Inserting a character that is not a letter anywhere in a non-empty
      string leaves its code unchanged. */
  lemma SoundexIgnoresNonLetter(s: string, i: nat, c: char)
    requires i <= |s| && s != []
    requires !IsLetter(c)
    ensures Soundex(s[..i] + [c] + s[i..]) == Soundex(s)
  {
    var t := s[..i] + [c] + s[i..];
    LettersAround(t, i);
    assert t[..i] == s[..i] && t[i] == c && t[i + 1..] == s[i..];
    assert Letters([c]) == [] by {
      assert [c][1..] == [];
    }
    LettersSplitAt(s, i);
    assert Letters(t) == Letters(s);
  }

  /** A letter right after another of the same digit group adds no digit:
      the group is already the previous one. */
  lemma {:induction false} DigitsSameGroup(a: string, x: char, y: char, b: string, last: char)
    requires Code(x) == Code(y)
    ensures Digits(a + ([x] + ([y] + b)), last) == Digits(a + ([x] + b), last)
  {
    if a == [] {
      assert a + ([x] + ([y] + b)) == [x] + ([y] + b);
      assert a + ([x] + b) == [x] + b;
      assert ([x] + ([y] + b))[1..] == [y] + b;
      assert ([y] + b)[1..] == b;
      assert ([x] + b)[1..] == b;
    } else {
      assert (a + ([x] + ([y] + b)))[1..] == a[1..] + ([x] + ([y] + b));
      assert (a + ([x] + b))[1..] == a[1..] + ([x] + b);
      DigitsSameGroup(a[1..], x, y, b, Code(a[0]));
    }
  }

  lemma LettersSplitAt(s: string, i: nat)
    requires i <= |s|
    ensures Letters(s) == Letters(s[..i]) + Letters(s[i..])
  {
    assert s == s[..i] + s[i..];
    LettersAppend(s[..i], s[i..]);
  }

  lemma LettersAround(s: string, i: nat)
    requires i < |s|
    ensures Letters(s) == Letters(s[..i]) + (Letters([s[i]]) + Letters(s[i + 1..]))
  {
    var t := s[i..];
    LettersSplitAt(s, i);
    var u, v := [s[i]], s[i + 1..];
    assert t == u + v;
    LettersAppend(u, v);
  }

  lemma LettersOfLetterThen(c: char, rest: string)
    requires IsLetter(c)
    ensures Letters([c] + rest) == [ToUpper(c)] + Letters(rest)
  {
    assert ([c] + rest)[1..] == rest;
  }

  /** The letters of `s` around a letter at position `i`. */
  lemma LettersAtLetter(s: string, i: nat)
    requires i < |s| && IsLetter(s[i])
    ensures Letters(s) == Letters(s[..i]) + ([ToUpper(s[i])] + Letters(s[i + 1..]))
  {
    assert s[i..] == [s[i]] + s[i + 1..];
    LettersOfLetterThen(s[i], s[i + 1..]);
    LettersSplitAt(s, i);
  }

  lemma LettersPair(a: string, c: char, e: char, b: string)
    requires IsLetter(c) && IsLetter(e)
    ensures Letters(a + ([c] + ([e] + b))) == Letters(a) + ([ToUpper(c)] + ([ToUpper(e)] + Letters(b)))
  {
    LettersAppend(a, [c] + ([e] + b));
    LettersOfLetterThen(c, [e] + b);
    LettersOfLetterThen(e, b);
  }

  lemma LettersDoubledLetter(s: string, i: nat)
    requires i < |s| && IsLetter(s[i])
    ensures Letters(s[..i] + [s[i]] + s[i..]) == Letters(s[..i]) + ([ToUpper(s[i])] + ([ToUpper(s[i])] + Letters(s[i + 1..])))
    ensures Letters(s) == Letters(s[..i]) + ([ToUpper(s[i])] + Letters(s[i + 1..]))
  {
    LettersAtLetter(s, i);
    DoubledAt(s, i);
    LettersPair(s[..i], s[i], s[i], s[i + 1..]);
  }

  lemma DoubledAt(s: string, i: nat)
    requires i < |s|
    ensures s[..i] + [s[i]] + s[i..] == s[..i] + ([s[i]] + ([s[i]] + s[i + 1..]))
  {
    assert s[i..] == [s[i]] + s[i + 1..];
  }

  /** Writing a letter twice in a row never changes the code: adjacent
      letters of the same group are coded once. */
  lemma SoundexIgnoresDoubledLetter(s: string, i: nat)
    requires i < |s| && IsLetter(s[i])
    ensures Soundex(s[..i] + [s[i]] + s[i..]) == Soundex(s)
  {
    var t := s[..i] + [s[i]] + s[i..];
    var x := ToUpper(s[i]);
    var la, lb := Letters(s[..i]), Letters(s[i + 1..]);
    LettersDoubledLetter(s, i);
    var lt, ls := Letters(t), Letters(s);
    if la == [] {
      assert lt == [x] + ([x] + lb);
      assert ls == [x] + lb;
      assert ([x] + lb)[1..] == lb;
      assert Digits([x] + lb, Code(x)) == Digits(lb, Code(x));
      assert lt[1..] == [x] + lb;
      assert ls[1..] == lb;
    } else {
      assert lt[1..] == la[1..] + ([x] + ([x] + lb));
      assert ls[1..] == la[1..] + ([x] + lb);
      DigitsSameGroup(la[1..], x, x, lb, Code(la[0]));
    }
  }

  lemma InsertedAfter(s: string, i: nat, y: char)
    requires i < |s|
    ensures s[..i + 1] + [y] + s[i + 1..] == s[..i] + ([s[i]] + ([y] + s[i + 1..]))
  {
    assert s[..i + 1] == s[..i] + [s[i]];
  }

  /** Letters of one digit group written next to each other are coded once,
      whether they are the same letter or not ("CK", "DT", "MN"), and a first
      letter blocks a following letter of its group ("Pfister" codes like
      "Pister"): inserting, right after a letter, a letter of its group never
      changes the code. */
  lemma SoundexIgnoresSameGroupLetter(s: string, i: nat, y: char)
    requires i < |s| && IsLetter(s[i]) && IsLetter(y)
    requires Code(ToUpper(y)) == Code(ToUpper(s[i]))
    ensures Soundex(s[..i + 1] + [y] + s[i + 1..]) == Soundex(s)
  {
    var t := s[..i + 1] + [y] + s[i + 1..];
    var x, z := ToUpper(s[i]), ToUpper(y);
    var la, lb := Letters(s[..i]), Letters(s[i + 1..]);
    InsertedAfter(s, i, y);
    LettersPair(s[..i], s[i], y, s[i + 1..]);
    LettersAtLetter(s, i);
    var lt, ls := Letters(t), Letters(s);
    assert lt == la + ([x] + ([z] + lb));
    assert ls == la + ([x] + lb);
    if la == [] {
      assert lt == [x] + ([z] + lb);
      assert ls == [x] + lb;
      assert Digits([z] + lb, Code(x)) == Digits(lb, Code(x)) by {
        assert ([z] + lb)[1..] == lb;
      }
      assert lt[1..] == [z] + lb;
      assert ls[1..] == lb;
    } else {
      assert lt[1..] == la[1..] + ([x] + ([z] + lb));
      assert ls[1..] == la[1..] + ([x] + lb);
      DigitsSameGroup(la[1..], x, z, lb, Code(la[0]));
    }
  }

  /** Two adjacent letters without a digit may trade places: neither adds a
      digit, and after either the previous group is "none". */
  lemma {:induction false} DigitsSwapUncoded(a: string, u: char, v: char, b: string, last: char)
    requires Code(u) == '0' && Code(v) == '0'
    ensures Digits(a + ([u] + ([v] + b)), last) == Digits(a + ([v] + ([u] + b)), last)
  {
    if a == [] {
      assert a + ([u] + ([v] + b)) == [u] + ([v] + b);
      assert a + ([v] + ([u] + b)) == [v] + ([u] + b);
      assert ([u] + ([v] + b))[1..] == [v] + b;
      assert ([v] + ([u] + b))[1..] == [u] + b;
      assert ([v] + b)[1..] == b;
      assert ([u] + b)[1..] == b;
    } else {
      assert (a + ([u] + ([v] + b)))[1..] == a[1..] + ([u] + ([v] + b));
      assert (a + ([v] + ([u] + b)))[1..] == a[1..] + ([v] + ([u] + b));
      DigitsSwapUncoded(a[1..], u, v, b, Code(a[0]));
    }
  }

  lemma SwappedAt(s: string, i: nat)
    requires i + 1 < |s|
    ensures s == s[..i] + ([s[i]] + ([s[i + 1]] + s[i + 2..]))
    ensures s[..i] + [s[i + 1], s[i]] + s[i + 2..] == s[..i] + ([s[i + 1]] + ([s[i]] + s[i + 2..]))
  {
    assert s[i..] == [s[i]] + ([s[i + 1]] + s[i + 2..]);
  }

  /** Transposing two adjacent vowels (or H, W, Y) after the first letter
      goes unnoticed: "abuot" has the code of "about". */
  lemma SoundexIgnoresSwappedUncoded(s: string, i: nat)
    requires i + 1 < |s| && IsLetter(s[i]) && IsLetter(s[i + 1])
    requires Code(ToUpper(s[i])) == '0' && Code(ToUpper(s[i + 1])) == '0'
    requires Letters(s[..i]) != []
    ensures Soundex(s[..i] + [s[i + 1], s[i]] + s[i + 2..]) == Soundex(s)
  {
    var t := s[..i] + [s[i + 1], s[i]] + s[i + 2..];
    var u, v := ToUpper(s[i]), ToUpper(s[i + 1]);
    var la, lb := Letters(s[..i]), Letters(s[i + 2..]);
    SwappedAt(s, i);
    LettersPair(s[..i], s[i], s[i + 1], s[i + 2..]);
    LettersPair(s[..i], s[i + 1], s[i], s[i + 2..]);
    var lt, ls := Letters(t), Letters(s);
    assert lt == la + ([v] + ([u] + lb));
    assert ls == la + ([u] + ([v] + lb));
    assert lt[1..] == la[1..] + ([v] + ([u] + lb));
    assert ls[1..] == la[1..] + ([u] + ([v] + lb));
    DigitsSwapUncoded(la[1..], u, v, lb, Code(la[0]));
  }

  /** The rule chosen where Soundex variants differ: a letter without a digit
      (a vowel, Y, H or W) between two letters of the same group lets the
      second one be coded again, as PHP's builtin does. */
  lemma UncodedLetterSeparatesSameGroup(x: char, y: char, sep: char, last: char)
    requires Code(x) != '0' && Code(x) == Code(y) && Code(x) != last
    requires Code(sep) == '0'
    ensures Digits([x, sep, y], last) == [Code(x), Code(x)]
  {
    assert Digits([y], '0') == [Code(y)] by {
      assert [y][1..] == [];
    }
    assert Digits([sep, y], Code(x)) == [Code(y)] by {
      assert [sep, y][1..] == [y];
    }
    assert [x, sep, y][1..] == [sep, y];
  }

  lemma {:induction false} LettersOfUpperLetters(s: string)
    requires forall i :: 0 <= i < |s| ==> IsUpper(s[i])
    ensures Letters(s) == s
  {
    if s != [] {
      LettersOfUpperLetters(s[1..]);
      assert s == [s[0]] + s[1..];
    }
  }

  /** One step of the digit scan, at position `i` of the letters `ls`. */
  lemma DigitsAt(ls: string, i: nat, last: char)
    requires i < |ls|
    ensures Digits(ls[i..], last)
              == (if Code(ls[i]) == last || Code(ls[i]) == '0' then [] else [Code(ls[i])]) + Digits(ls[i + 1..], Code(ls[i]))
  {
    assert ls[i..][1..] == ls[i + 1..];
  }

  /** The letters of a word of letters are the word upper-cased. */
  lemma LettersOfWord(s: string)
    requires forall i :: 0 <= i < |s| ==> IsLetter(s[i])
    ensures Letters(s) == UpperAll(s)
  {
    LettersIgnoreCase(s);
    LettersOfUpperLetters(UpperAll(s));
  }

  /** The code of a word made only of letters, from its upper-cased form. */
  lemma SoundexOfWord(s: string)
    requires s != [] && forall i :: 0 <= i < |s| ==> IsLetter(s[i])
    ensures Soundex(s) == [UpperAll(s)[0]] + Pad3(Digits(UpperAll(s)[1..], Code(UpperAll(s)[0])))
  {
    LettersOfWord(s);
  }

  /** The digits of "OBERT" and of "UPERT" after an R: B and P are both 1,
      the vowels code nothing, R is 6 and T is 3. */
  lemma DigitsOfRobert(u: string, vowel: char, labial: char)
    requires |u| == 6 && u[1] == vowel && u[2] == labial && u[3] == 'E' && u[4] == 'R' && u[5] == 'T'
    requires Code(vowel) == '0' && Code(labial) == '1'
    ensures Digits(u[1..], '6') == "163"
  {
    assert u[6..] == [];
    DigitsAt(u, 5, '6');
    assert Digits(u[5..], '6') == "3";
    DigitsAt(u, 4, '0');
    assert Digits(u[4..], '0') == "63";
    DigitsAt(u, 3, '1');
    assert Digits(u[3..], '1') == "63";
    DigitsAt(u, 2, '0');
    assert Digits(u[2..], '0') == "163";
    DigitsAt(u, 1, '6');
  }

  /** A word spelled R, a vowel, a labial, e, r, t in any case: its
      upper-cased letters are those of "ROBERT" with the two varying ones. */
  lemma UpperOfRobert(s: string, vowel: char, labial: char)
    requires |s| == 6 && s[0] == 'R' && s[3] == 'e' && s[4] == 'r' && s[5] == 't'
    requires IsLetter(s[1]) && ToUpper(s[1]) == vowel && IsLetter(s[2]) && ToUpper(s[2]) == labial
    ensures forall i :: 0 <= i < |s| ==> IsLetter(s[i])
    ensures var u := UpperAll(s);
            u[0] == 'R' && u[1] == vowel && u[2] == labial && u[3] == 'E' && u[4] == 'R' && u[5] == 'T'
  {
  }

  /** Every word R, an uncoded letter (a vowel, H, W or Y), one of B F P V,
      then "ert" has the code "R163"; the two middle letters may be of
      either case. */
  lemma SoundsLikeRobert(s: string)
    requires |s| == 6 && s[0] == 'R' && s[3] == 'e' && s[4] == 'r' && s[5] == 't'
    requires IsLetter(s[1]) && Code(ToUpper(s[1])) == '0'
    requires IsLetter(s[2]) && Code(ToUpper(s[2])) == '1'
    ensures Soundex(s) == "R163"
  {
    var vowel, labial := ToUpper(s[1]), ToUpper(s[2]);
    UpperOfRobert(s, vowel, labial);
    SoundexOfWord(s);
    DigitsOfRobert(UpperAll(s), vowel, labial);
  }

  /** The spellings "Robert" and "Rupert" are of that form. */
  lemma RobertOrRupertCode(s: string, w: string)
    requires Spells(s, w) && (w == "Robert" || w == "Rupert")
    ensures Soundex(s) == "R163"
  {
    assert s[0] == 'R' && s[3] == 'e' && s[4] == 'r' && s[5] == 't';
    assert s[1] == 'o' || s[1] == 'u';
    assert s[2] == 'b' || s[2] == 'p';
    SoundsLikeRobert(s);
  }

  /** The classic example: Robert and Rupert sound alike. */
  lemma RobertAndRupert(robert: string, rupert: string)
    requires Spells(robert, "Robert") && Spells(rupert, "Rupert")
    ensures Soundex(robert) == Soundex(rupert) == "R163"
  {
    RobertOrRupertCode(robert, "Robert");
    RobertOrRupertCode(rupert, "Rupert");
  }
}
