/** The title-to-filename conversion of `save_to_file`: drop every punctuation
    character, split what is left on runs of whitespace, join the words with
    underscores and append the `.txt` extension. */
module Sanitizer {

  /** Python's `string.punctuation`, in its own order. */
  const Punctuation: string := "!\"#$%&'()*+,-./:;<=>?@[\\]^_`{|}~"

  /** The suffix every saved filename carries. */
  const Extension: string := ".txt"

  /** Membership in `string.punctuation`, written as the four ASCII ranges the
      32 characters occupy. */
  predicate IsPunct(c: char) {
    ('!' <= c <= '/') || (':' <= c <= '@') || ('[' <= c <= '`') || ('{' <= c <= '~')
  }

  /** The separators of Python's argument-less `str.split()`: the characters for
      which `str.isspace()` holds. Besides ASCII space, tab, newline, vertical
      tab, form feed and carriage return this includes the ASCII information
      separators 0x1C-0x1F and the Unicode whitespace characters. */
  predicate IsSpace(c: char) {
    c == ' ' || ('\t' <= c <= '\r') || ('\U{1C}' <= c <= '\U{1F}')
    || c == '\U{85}' || c == '\U{A0}' || c == '\U{1680}' || ('\U{2000}' <= c <= '\U{200A}')
    || c == '\U{2028}' || c == '\U{2029}' || c == '\U{202F}' || c == '\U{205F}' || c == '\U{3000}'
  }

  /** A word as `str.split()` produces it: non-empty, without whitespace. */
  predicate IsWord(w: string) {
    |w| > 0 && forall i :: 0 <= i < |w| ==> !IsSpace(w[i])
  }

  /** A word of a title once punctuation is gone: also free of punctuation
      (and so of `_`). */
  predicate IsCleanWord(w: string) {
    IsWord(w) && forall i :: 0 <= i < |w| ==> !IsPunct(w[i])
  }

  /** The shape of a filename stem: every character is either a `_` or neither
      punctuation nor whitespace; underscores appear only between two other
      characters, so the stem neither starts nor ends with one and never holds
      two in a row. */
  predicate IsStem(s: string) {
    (forall i :: 0 <= i < |s| ==> s[i] == '_' || (!IsPunct(s[i]) && !IsSpace(s[i])))
    && (|s| > 0 ==> s[0] != '_' && s[|s| - 1] != '_')
    && (forall i :: 0 <= i < |s| - 1 ==> !(s[i] == '_' && s[i + 1] == '_'))
  }

  /** `''.join([char for char in s if char not in punctuation])`. */
  function StripPunctuation(s: string): (r: string)
    ensures |r| <= |s|
    ensures forall i :: 0 <= i < |r| ==> !IsPunct(r[i])
  {
    if s == [] then []
    else (if IsPunct(s[0]) then [] else [s[0]]) + StripPunctuation(s[1..])
  }

  /** The longest prefix of `s` without whitespace. */
  function WordPrefix(s: string): (w: string)
    ensures |w| <= |s| && w == s[..|w|]
    ensures forall i :: 0 <= i < |w| ==> !IsSpace(w[i])
    ensures |w| < |s| ==> IsSpace(s[|w|])
  {
    if s == [] || IsSpace(s[0]) then [] else [s[0]] + WordPrefix(s[1..])
  }

  /** Python's `s.split()`: the maximal runs of non-whitespace characters, in
      order; leading, trailing and repeated whitespace give no empty words. */
  function Split(s: string): (words: seq<string>)
    ensures forall k :: 0 <= k < |words| ==> IsWord(words[k])
    ensures forall k, c :: 0 <= k < |words| && c in words[k] ==> c in s
    decreases |s|
  {
    if s == [] then []
    else if IsSpace(s[0]) then
      assert forall c :: c in s[1..] ==> c in s;
      Split(s[1..])
    else
      var w := WordPrefix(s);
      var rest := Split(s[|w|..]);
      assert |w| > 0 && IsWord(w);
      assert forall c :: c in w ==> c in s;
      assert forall c :: c in s[|w|..] ==> c in s;
      [w] + rest
  }

  /** Python's `sep.join(words)`. */
  function Join(sep: char, words: seq<string>): string {
    if |words| == 0 then ""
    else if |words| == 1 then words[0]
    else words[0] + [sep] + Join(sep, words[1..])
  }

  /** Python's `s.split(sep)` for a one-character separator: the pieces between
      separators, empty ones included, so there is always at least one. The
      script never calls it; it is here only to state StemSplitsIntoWords,
      that the underscores of a stem are exactly its word separators. */
  function SplitOn(sep: char, s: string): (pieces: seq<string>)
    ensures |pieces| > 0
  {
    if s == [] then [""]
    else
      var rest := SplitOn(sep, s[1..]);
      if s[0] == sep then [""] + rest else [[s[0]] + rest[0]] + rest[1..]
  }

  /** The words of a title once punctuation is removed. */
  function TitleWords(title: string): seq<string> {
    Split(StripPunctuation(title))
  }

  /** The filename without its extension. */
  function Stem(title: string): string {
    Join('_', TitleWords(title))
  }

  /** Lines 86-87 of `save_to_file`: the filename a title is saved under. */
  function Sanitize(title: string): string {
    Stem(title) + Extension
  }

  // ---------------------------------------------------------------------------
  // Punctuation

  /** The ranges in IsPunct are exactly the 32 characters of `string.punctuation`. */
  lemma PunctuationTable(c: char)
    ensures |Punctuation| == 32
    ensures IsPunct(c) <==> c in Punctuation
  {
    if IsPunct(c) {
      PunctuationRanges(c);
    }
  }

  lemma PunctuationRanges(c: char)
    requires IsPunct(c)
    ensures c in Punctuation
  {
    var n := c as int;
    var i := if n <= 0x2F then n - 0x21 else if n <= 0x40 then n - 0x3A + 15
             else if n <= 0x60 then n - 0x5B + 22 else n - 0x7B + 28;
    assert Punctuation[i] == c;
  }

  /** The characters kept are exactly the characters of `s` that are not
      punctuation. */
  lemma {:induction false} StripMembers(s: string)
    ensures forall c :: c in StripPunctuation(s) <==> c in s && !IsPunct(c)
  {
    if s != [] {
      assert s == [s[0]] + s[1..];
      StripMembers(s[1..]);
    }
  }

  /** Removing punctuation distributes over concatenation, so it keeps the
      remaining characters in their order. */
  lemma {:induction false} StripAppend(a: string, b: string)
    ensures StripPunctuation(a + b) == StripPunctuation(a) + StripPunctuation(b)
  {
    if a == [] {
      assert a + b == b;
    } else {
      assert (a + b)[0] == a[0] && (a + b)[1..] == a[1..] + b;
      StripAppend(a[1..], b);
      if !IsPunct(a[0]) {
        assert StripPunctuation(a + b) == [a[0]] + StripPunctuation(a[1..] + b);
        assert StripPunctuation(a) == [a[0]] + StripPunctuation(a[1..]);
      }
    }
  }

  /** A string without punctuation is left as it is. */
  lemma {:induction false} StripIdentity(s: string)
    requires forall i :: 0 <= i < |s| ==> !IsPunct(s[i])
    ensures StripPunctuation(s) == s
  {
    if s != [] {
      StripIdentity(s[1..]);
    }
  }

  /** Removing punctuation twice is removing it once. */
  lemma StripIdempotent(s: string)
    ensures StripPunctuation(StripPunctuation(s)) == StripPunctuation(s)
  {
    StripIdentity(StripPunctuation(s));
  }

  /** Punctuation does not matter to the filename. */
  lemma SanitizeIgnoresPunctuation(title: string)
    ensures Sanitize(StripPunctuation(title)) == Sanitize(title)
  {
    StripIdempotent(title);
  }

  // ---------------------------------------------------------------------------
  // Splitting on whitespace

  lemma {:induction false} WordPrefixOfWord(w: string, t: string)
    requires forall i :: 0 <= i < |w| ==> !IsSpace(w[i])
    requires t == [] || IsSpace(t[0])
    ensures WordPrefix(w + t) == w
  {
    if w != [] {
      assert (w + t)[1..] == w[1..] + t;
      WordPrefixOfWord(w[1..], t);
    } else {
      assert w + t == t;
    }
  }

  /** Past the first whitespace character of `a`, what follows does not change
      the first word. */
  lemma WordPrefixAppend(a: string, t: string)
    requires |WordPrefix(a)| < |a|
    ensures WordPrefix(a + t) == WordPrefix(a)
  {
    var w := WordPrefix(a);
    assert a == w + a[|w|..];
    assert a + t == w + (a[|w|..] + t);
    WordPrefixOfWord(w, a[|w|..] + t);
  }

  /** Any whitespace character separates words: the words of `a + c + b` are
      the words of `a` followed by the words of `b`. */
  lemma {:induction false} SplitAroundSpace(a: string, c: char, b: string)
    requires IsSpace(c)
    ensures Split(a + [c] + b) == Split(a) + Split(b)
    decreases |a|
  {
    var s := a + [c] + b;
    if a == [] {
      assert s == [c] + b && s[1..] == b;
    } else if IsSpace(a[0]) {
      assert s[0] == a[0] && s[1..] == a[1..] + [c] + b;
      SplitAroundSpace(a[1..], c, b);
    } else {
      var w := WordPrefix(a);
      assert s[0] == a[0];
      if |w| == |a| {
        assert s == a + ([c] + b);
        assert w == a;
        WordPrefixOfWord(a, [c] + b);
        SplitWord(a);
        assert s[|a|..] == [c] + b && ([c] + b)[1..] == b;
      } else {
        var rest := a[|w|..];
        assert s == a + ([c] + b);
        WordPrefixAppend(a, [c] + b);
        assert s[|w|..] == rest + [c] + b;
        SplitAroundSpace(rest, c, b);
      }
    }
  }

  /** Leading whitespace of any kind yields no word. */
  lemma SplitLeadingSpace(c: char, t: string)
    requires IsSpace(c)
    ensures Split([c] + t) == Split(t)
  {
    SplitAroundSpace([], c, t);
    assert [] + [c] + t == [c] + t;
  }

  /** A single word splits into itself. */
  lemma SplitWord(w: string)
    requires IsWord(w)
    ensures Split(w) == [w]
  {
    WordPrefixOfWord(w, []);
    assert w + [] == w;
  }

  /** Splitting `w + c + t` for a word `w` and a whitespace character `c`
      yields `w` and then the words of `t`. */
  lemma SplitWordThenSpace(w: string, c: char, t: string)
    requires IsWord(w) && IsSpace(c)
    ensures Split(w + [c] + t) == [w] + Split(t)
  {
    SplitAroundSpace(w, c, t);
    SplitWord(w);
  }

  /** Splitting undoes joining with a whitespace character:
      `sep.join(ws).split() == ws` for a list of words. */
  lemma {:induction false} SplitJoin(sep: char, ws: seq<string>)
    requires IsSpace(sep)
    requires forall k :: 0 <= k < |ws| ==> IsWord(ws[k])
    ensures Split(Join(sep, ws)) == ws
  {
    if |ws| == 1 {
      SplitWord(ws[0]);
    } else if |ws| > 1 {
      SplitWordThenSpace(ws[0], sep, Join(sep, ws[1..]));
      SplitJoin(sep, ws[1..]);
    }
  }

  /** A string splits into no words exactly when it is all whitespace. */
  lemma {:induction false} SplitEmptyIff(s: string)
    ensures Split(s) == [] <==> forall c :: c in s ==> IsSpace(c)
    decreases |s|
  {
    if s != [] {
      assert s == [s[0]] + s[1..];
      if IsSpace(s[0]) {
        SplitEmptyIff(s[1..]);
      } else {
        assert s[0] in s;
      }
    }
  }

  // ---------------------------------------------------------------------------
  // Joining with underscores

  lemma {:induction false} JoinEmptyIff(ws: seq<string>)
    requires forall k :: 0 <= k < |ws| ==> IsWord(ws[k])
    ensures Join('_', ws) == "" <==> ws == []
  {
    if |ws| > 1 {
      assert |Join('_', ws)| >= |ws[0]|;
    }
  }

  /** A clean word followed by `_` and a non-empty stem is a stem. */
  lemma StemCons(w: string, s: string)
    requires IsCleanWord(w) && IsStem(s) && |s| > 0
    ensures IsStem(w + ['_'] + s)
  {
    var r := w + ['_'] + s;
    forall i | 0 <= i < |r| ensures r[i] == '_' || (!IsPunct(r[i]) && !IsSpace(r[i])) {
      if i > |w| { assert r[i] == s[i - |w| - 1]; }
    }
    forall i | 0 <= i < |r| - 1 ensures !(r[i] == '_' && r[i + 1] == '_') {
      if i > |w| { assert r[i] == s[i - |w| - 1] && r[i + 1] == s[i - |w|]; }
      else if i == |w| { assert r[i + 1] == s[0]; }
      else { assert r[i] == w[i]; }
    }
    assert r[|r| - 1] == s[|s| - 1];
  }

  /** Joining clean words with `_` gives a stem. */
  lemma {:induction false} JoinIsStem(ws: seq<string>)
    requires forall k :: 0 <= k < |ws| ==> IsCleanWord(ws[k])
    ensures IsStem(Join('_', ws))
  {
    if |ws| == 1 {
      assert IsPunct('_');
    } else if |ws| > 1 {
      JoinIsStem(ws[1..]);
      JoinEmptyIff(ws[1..]);
      StemCons(ws[0], Join('_', ws[1..]));
    }
  }

  lemma {:induction false} SplitOnPlain(sep: char, w: string)
    requires sep !in w
    ensures SplitOn(sep, w) == [w]
  {
    if w != [] {
      assert w[0] in w;
      assert forall c :: c in w[1..] ==> c in w;
      SplitOnPlain(sep, w[1..]);
      assert [w[0]] + w[1..] == w;
    }
  }

  lemma {:induction false} SplitOnPiece(sep: char, w: string, t: string)
    requires sep !in w
    ensures SplitOn(sep, w + [sep] + t) == [w] + SplitOn(sep, t)
  {
    var s := w + [sep] + t;
    if w == [] {
      assert s == [sep] + t && s[1..] == t;
    } else {
      assert w[0] in w;
      assert forall c :: c in w[1..] ==> c in w;
      assert s[0] == w[0] && s[1..] == w[1..] + [sep] + t;
      SplitOnPiece(sep, w[1..], t);
      assert [w[0]] + w[1..] == w;
    }
  }

  /** Splitting on the separator undoes joining with it, for pieces that do not
      hold the separator. */
  lemma {:induction false} SplitOnJoin(sep: char, ws: seq<string>)
    requires |ws| > 0
    requires forall k :: 0 <= k < |ws| ==> sep !in ws[k]
    ensures SplitOn(sep, Join(sep, ws)) == ws
  {
    if |ws| == 1 {
      SplitOnPlain(sep, ws[0]);
    } else {
      SplitOnPiece(sep, ws[0], Join(sep, ws[1..]));
      SplitOnJoin(sep, ws[1..]);
    }
  }

  // ---------------------------------------------------------------------------
  // Properties of the filename

  lemma CleanWordsHaveNoUnderscore(ws: seq<string>)
    requires forall k :: 0 <= k < |ws| ==> IsCleanWord(ws[k])
    ensures forall k :: 0 <= k < |ws| ==> '_' !in ws[k]
  {
    assert IsPunct('_');
    forall k | 0 <= k < |ws| ensures '_' !in ws[k] {
      assert forall i :: 0 <= i < |ws[k]| ==> ws[k][i] != '_';
    }
  }

  /** Underscores in the stem are exactly the word separators: splitting the
      stem on `_` gives back the words of the title. */
  lemma StemSplitsIntoWords(title: string)
    requires TitleWords(title) != []
    ensures SplitOn('_', Stem(title)) == TitleWords(title)
  {
    TitleWordsAreClean(title);
    CleanWordsHaveNoUnderscore(TitleWords(title));
    SplitOnJoin('_', TitleWords(title));
  }

  /** The words of a title hold neither punctuation nor whitespace. */
  lemma TitleWordsAreClean(title: string)
    ensures forall k :: 0 <= k < |TitleWords(title)| ==> IsCleanWord(TitleWords(title)[k])
  {
    var stripped := StripPunctuation(title);
    var ws := Split(stripped);
    assert forall k, i :: 0 <= k < |ws| && 0 <= i < |ws[k]| ==> ws[k][i] in stripped;
  }

  /** The stem has the shape IsStem describes, and is empty exactly when the
      title has no words. */
  lemma StemShape(title: string)
    ensures IsStem(Stem(title))
    ensures Stem(title) == "" <==> TitleWords(title) == []
  {
    TitleWordsAreClean(title);
    JoinIsStem(TitleWords(title));
    JoinEmptyIff(TitleWords(title));
  }

  /** Every filename ends with `.txt`, and what precedes it is a stem: no
      whitespace, no punctuation other than `_`, and each `_` between two
      other characters. */
  lemma SanitizeShape(title: string)
    ensures |Sanitize(title)| >= |Extension|
    ensures Sanitize(title)[|Sanitize(title)| - |Extension|..] == Extension
    ensures IsStem(Sanitize(title)[..|Sanitize(title)| - |Extension|])
  {
    SanitizeParts(title);
    StemShape(title);
  }

  /** The stem is what precedes the extension. */
  lemma SanitizeParts(title: string)
    ensures Sanitize(title)[..|Sanitize(title)| - |Extension|] == Stem(title)
    ensures Sanitize(title)[|Sanitize(title)| - |Extension|..] == Extension
  {
    var stem := Stem(title);
    assert (stem + Extension)[..|stem|] == stem;
  }

  /** Two titles collide on a filename exactly when they have the same words
      once punctuation is removed. */
  lemma SanitizeCollidesIff(a: string, b: string)
    ensures Sanitize(a) == Sanitize(b) <==> TitleWords(a) == TitleWords(b)
  {
    if Sanitize(a) == Sanitize(b) {
      SanitizeParts(a);
      SanitizeParts(b);
      assert Stem(a) == Stem(b);
      if TitleWords(a) != [] {
        StemSplitsIntoWords(a);
        StemSplitsIntoWords(b);
      }
    }
  }

  /** A title made only of punctuation and whitespace, the empty title
      included, gives the bare extension, and no other title does. */
  lemma SanitizeBareIff(title: string)
    ensures Sanitize(title) == Extension <==> forall c :: c in title ==> IsPunct(c) || IsSpace(c)
  {
    StemShape(title);
    StripMembers(title);
    SplitEmptyIff(StripPunctuation(title));
    var stem := Stem(title);
    assert stem + Extension == Extension <==> stem == "" by {
      assert |stem + Extension| == |stem| + |Extension|;
    }
  }

  lemma {:induction false} SpacedWordsHaveNoPunctuation(sep: char, ws: seq<string>)
    requires !IsPunct(sep)
    requires forall k :: 0 <= k < |ws| ==> IsCleanWord(ws[k])
    ensures forall c :: c in Join(sep, ws) ==> !IsPunct(c)
  {
    if |ws| > 1 {
      SpacedWordsHaveNoPunctuation(sep, ws[1..]);
      var w, rest := ws[0], Join(sep, ws[1..]);
      forall c | c in w + [sep] + rest ensures !IsPunct(c) {
        if c in w {
          var i :| 0 <= i < |w| && w[i] == c;
        }
      }
    } else if |ws| == 1 {
      forall c | c in ws[0] ensures !IsPunct(c) {
        var i :| 0 <= i < |ws[0]| && ws[0][i] == c;
      }
    }
  }

  /** A title that is already clean words separated by one whitespace
      character each becomes those words joined by underscores. */
  lemma SanitizeSpacedWords(sep: char, ws: seq<string>)
    requires IsSpace(sep)
    requires forall k :: 0 <= k < |ws| ==> IsCleanWord(ws[k])
    ensures Sanitize(Join(sep, ws)) == Join('_', ws) + Extension
  {
    SpacedWordsHaveNoPunctuation(sep, ws);
    StripIdentity(Join(sep, ws));
    SplitJoin(sep, ws);
    SanitizeParts(Join(sep, ws));
  }

  /** A title whose punctuation-free form is clean words separated by one
      whitespace character each is saved under those words joined by
      underscores. */
  lemma SanitizeViaWords(title: string, sep: char, ws: seq<string>)
    requires IsSpace(sep)
    requires forall k :: 0 <= k < |ws| ==> IsCleanWord(ws[k])
    requires StripPunctuation(title) == Join(sep, ws)
    ensures Sanitize(title) == Join('_', ws) + Extension
  {
    SanitizeIgnoresPunctuation(title);
    SanitizeSpacedWords(sep, ws);
  }

  /** Which whitespace character separates two parts of a title does not
      matter to the filename: a newline or a tab acts as a space does. */
  lemma SanitizeAnySpace(a: string, c: char, b: string)
    requires IsSpace(c)
    ensures Sanitize(a + [c] + b) == Sanitize(a + [' '] + b)
  {
    assert !IsPunct(c) && StripPunctuation([c]) == [c] && StripPunctuation([' ']) == [' '];
    StripAppend(a, [c]);
    StripAppend(a + [c], b);
    StripAppend(a, [' ']);
    StripAppend(a + [' '], b);
    SplitAroundSpace(StripPunctuation(a), c, StripPunctuation(b));
    SplitAroundSpace(StripPunctuation(a), ' ', StripPunctuation(b));
  }

  // ---------------------------------------------------------------------------
  // Worked examples. Functions applied to string literals are unfolded in full,
  // so each literal computation is a small lemma of its own; one large proof
  // would cost the solver far more than the sum of these.

  lemma StripExample()
    ensures StripPunctuation("A, B!") == "A B"
  {
    assert "!"[1..] == [] && "B!"[1..] == "!" && " B!"[1..] == "B!" && ", B!"[1..] == " B!" && "A, B!"[1..] == ", B!";
    assert StripPunctuation("!") == [];
    assert StripPunctuation("B!") == "B";
    assert StripPunctuation(" B!") == " B";
    assert StripPunctuation(", B!") == " B";
  }

  lemma SplitExample()
    ensures Split("A B") == ["A", "B"]
  {
    assert "A B" == "A" + [' '] + "B";
    SplitWordThenSpace("A", ' ', "B");
    SplitWord("B");
  }

  lemma JoinExample()
    ensures Join('_', ["A", "B"]) + Extension == "A_B.txt"
  {
    assert Join('_', ["A", "B"]) == "A_B";
  }

  /** `"A, B!"` and `"A B"` both become `"A_B.txt"`. */
  lemma PunctuationCollision()
    ensures Sanitize("A, B!") == "A_B.txt"
    ensures Sanitize("A B") == "A_B.txt"
  {
    StripExample();
    SplitExample();
    StripIdentity("A B");
    JoinExample();
    SanitizeParts("A, B!");
    SanitizeParts("A B");
  }
  /** A leading newline yields no word: `"\nA B"` becomes `"A_B.txt"`. */
  lemma NewlineExample()
    ensures Sanitize("\nA B") == "A_B.txt"
  {
    StripIdentity("\nA B");
    assert "\nA B" == ['\n'] + "A B";
    SplitLeadingSpace('\n', "A B");
    SplitExample();
    JoinExample();
  }

  /** A run of whitespace starting with a tab is one separator:
      `"A\t B"` becomes `"A_B.txt"`. */
  lemma TabExample()
    ensures Sanitize("A\t B") == "A_B.txt"
  {
    StripIdentity("A\t B");
    assert "A\t B" == "A" + ['\t'] + " B" && " B" == [' '] + "B";
    SplitWordThenSpace("A", '\t', " B");
    SplitLeadingSpace(' ', "B");
    SplitWord("B");
    JoinExample();
  }

  /** Three clean pieces each followed by a punctuation mark lose only the marks. */
  lemma StripPieces(a: string, b: string, c: string, d: string, e: string, f: string)
    requires StripPunctuation(a) == a && StripPunctuation(c) == c && StripPunctuation(e) == e
    requires StripPunctuation(b) == [] && StripPunctuation(d) == [] && StripPunctuation(f) == []
    ensures StripPunctuation(a + b + c + d + e + f) == a + c + e
  {
    StripAppend(a, b);
    assert StripPunctuation(a + b) == a;
    StripAppend(a + b, c);
    assert StripPunctuation(a + b + c) == a + c;
    StripAppend(a + b + c, d);
    assert StripPunctuation(a + b + c + d) == a + c;
    StripAppend(a + b + c + d, e);
    assert StripPunctuation(a + b + c + d + e) == a + c + e;
    StripAppend(a + b + c + d + e, f);
  }

  /** `"Scientists, Discover: New Species!"` loses exactly its three marks. */
  lemma ScientistsStrip()
    ensures StripPunctuation("Scientists, Discover: New Species!") == "Scientists Discover New Species"
  {
    ScientistsPieces();
    ScientistsKept();
    StripPieces("Scientists", ",", " Discover", ":", " New Species", "!");
  }

  lemma ScientistsPieces()
    ensures "Scientists, Discover: New Species!" == "Scientists" + "," + " Discover" + ":" + " New Species" + "!"
    ensures "Scientists" + " Discover" + " New Species" == "Scientists Discover New Species"
    ensures StripPunctuation("!") == [] && StripPunctuation(":") == [] && StripPunctuation(",") == []
  {
  }

  lemma ScientistsKept()
    ensures StripPunctuation("Scientists") == "Scientists"
    ensures StripPunctuation(" Discover") == " Discover"
    ensures StripPunctuation(" New Species") == " New Species"
  {
    KeptScientists();
    KeptRest();
  }

  lemma KeptScientists()
    ensures StripPunctuation("Scientists") == "Scientists"
  {
    StripIdentity("Scientists");
  }

  lemma KeptRest()
    ensures StripPunctuation(" Discover") == " Discover"
    ensures StripPunctuation(" New Species") == " New Species"
  {
    StripIdentity(" Discover");
    StripIdentity(" New Species");
  }

  /** The title's words are clean and, spaced, give its punctuation-free form. */
  lemma ScientistsWords()
    ensures forall k :: 0 <= k < 4 ==> IsCleanWord(["Scientists", "Discover", "New", "Species"][k])
    ensures "Scientists Discover New Species" == Join(' ', ["Scientists", "Discover", "New", "Species"])
  {
    ScientistsClean();
    ScientistsSpaced();
  }

  lemma ScientistsClean()
    ensures IsCleanWord("Scientists") && IsCleanWord("Discover") && IsCleanWord("New") && IsCleanWord("Species")
  {
  }

  lemma ScientistsSpaced()
    ensures Join(' ', ["Scientists", "Discover", "New", "Species"]) == "Scientists" + " " + "Discover" + " " + "New" + " " + "Species"
  {
  }

  lemma ScientistsName()
    ensures Join('_', ["Scientists", "Discover", "New", "Species"]) + Extension == "Scientists_Discover_New_Species.txt"
  {
    ScientistsStem();
    ScientistsConcat();
  }

  lemma ScientistsStem()
    ensures Join('_', ["Scientists", "Discover", "New", "Species"]) == "Scientists" + "_" + "Discover" + "_" + "New" + "_" + "Species"
  {
  }

  lemma ScientistsConcat()
    ensures "Scientists" + "_" + "Discover" + "_" + "New" + "_" + "Species" + Extension == "Scientists_Discover_New_Species.txt"
  {
  }

  /** `"Scientists, Discover: New Species!"` is saved as
      `"Scientists_Discover_New_Species.txt"`. */
  lemma ScientistsExample()
    ensures Sanitize("Scientists, Discover: New Species!") == "Scientists_Discover_New_Species.txt"
  {
    ScientistsStrip();
    ScientistsWords();
    ScientistsName();
    SanitizeViaWords("Scientists, Discover: New Species!", ' ', ["Scientists", "Discover", "New", "Species"]);
  }

  lemma TestTitleWords()
    ensures IsCleanWord("Test") && IsCleanWord("Title")
    ensures Join(' ', ["Test", "Title"]) == "Test Title"
    ensures Join('_', ["Test", "Title"]) + Extension == "Test_Title.txt"
  {
    assert Join(' ', ["Test", "Title"]) == "Test" + " " + "Title";
    assert Join('_', ["Test", "Title"]) == "Test" + "_" + "Title";
  }

  /** `"Test Title"` is saved as `"Test_Title.txt"`. */
  lemma TestTitleName()
    ensures Sanitize("Test Title") == "Test_Title.txt"
  {
    TestTitleWords();
    SanitizeSpacedWords(' ', ["Test", "Title"]);
  }
}
