/** Column-name normalisation (`to_snake_case`): trim, lower-case, drop every
    character that is neither a word character nor whitespace, then turn each
    run of whitespace into one underscore.

    Character classes follow Python's `str.isspace`, `str.lower` and the
    regular-expression classes `\w` and `\s` on ASCII. A character outside
    ASCII is treated as a word character that is not whitespace and has no
    case. */
module SnakeCase {

  /** ASCII whitespace as `str.strip()` and `\s` see it: tab, line feed,
      vertical tab, form feed, carriage return (9-13), the information
      separators (28-31) and space (32). */
  predicate IsSpace(c: char) {
    9 <= c as int <= 13 || 28 <= c as int <= 32
  }

  predicate IsUpper(c: char) { 'A' <= c <= 'Z' }

  predicate IsAsciiChar(c: char) { c as int < 128 }

  predicate IsAscii(s: string) { forall i :: 0 <= i < |s| ==> IsAsciiChar(s[i]) }

  /** `\w`: letters, digits and underscore (and, in this model, any non-ASCII character). */
  predicate IsWordChar(c: char) {
    'a' <= c <= 'z' || 'A' <= c <= 'Z' || '0' <= c <= '9' || c == '_' || !IsAsciiChar(c)
  }

  /** A character `to_snake_case` can produce. */
  predicate IsSnakeChar(c: char) {
    IsWordChar(c) && !IsUpper(c)
  }

  function LowerChar(c: char): (d: char)
    ensures !IsUpper(d)
    ensures IsUpper(c) ==> d as int == c as int + 32
    ensures !IsUpper(c) ==> d == c
  {
    if IsUpper(c) then (c as int + 32) as char else c
  }

  predicate NoSpace(s: string) { forall i :: 0 <= i < |s| ==> !IsSpace(s[i]) }

  predicate AllSpace(s: string) { forall i :: 0 <= i < |s| ==> IsSpace(s[i]) }

  predicate NoUpper(s: string) { forall i :: 0 <= i < |s| ==> !IsUpper(s[i]) }

  /** The characters `re.sub(r"[^\w\s]", "", s)` keeps. */
  predicate IsKept(c: char) { IsWordChar(c) || IsSpace(c) }

  predicate AllKept(s: string) { forall i :: 0 <= i < |s| ==> IsKept(s[i]) }

  /** `s` without its leading whitespace. */
  function TrimStart(s: string): (r: string)
    ensures |r| <= |s|
    decreases |s|
  {
    if s != [] && IsSpace(s[0]) then TrimStart(s[1..]) else s
  }

  /** `s` without its trailing whitespace. */
  function TrimEnd(s: string): (r: string)
    decreases |s|
  {
    if s != [] && IsSpace(s[|s| - 1]) then TrimEnd(s[..|s| - 1]) else s
  }

  /** `str.strip()`. */
  function Strip(s: string): string {
    TrimEnd(TrimStart(s))
  }

  /** `str.lower()`, which on ASCII changes only the letters `A`-`Z`. */
  function Lower(s: string): string {
    seq(|s|, i requires 0 <= i < |s| => LowerChar(s[i]))
  }

  /** `re.sub(r"[^\w\s]", "", s)`. */
  function RemovePunctuation(s: string): string
    decreases |s|
  {
    if s == [] then []
    else if IsKept(s[0]) then [s[0]] + RemovePunctuation(s[1..])
    else RemovePunctuation(s[1..])
  }

  /** `re.sub(r"\s+", "_", s)`. */
  function CollapseWhitespace(s: string): string
    decreases |s|
  {
    if s == [] then []
    else if IsSpace(s[0]) then "_" + CollapseWhitespace(TrimStart(s))
    else [s[0]] + CollapseWhitespace(s[1..])
  }

  /** `to_snake_case`. */
  function ToSnakeCase(name: string): string {
    CollapseWhitespace(RemovePunctuation(Lower(Strip(name))))
  }

  /** Leading whitespace, and only whitespace, is cut off the front. */
  lemma {:induction false} TrimStartSpec(s: string)
    ensures var r := TrimStart(s);
      && r == s[|s| - |r|..]
      && (r == [] || !IsSpace(r[0]))
      && (forall i :: 0 <= i < |s| - |r| ==> IsSpace(s[i]))
    decreases |s|
  {
    if s != [] && IsSpace(s[0]) {
      TrimStartSpec(s[1..]);
    }
  }

  /** Trailing whitespace, and only whitespace, is cut off the end. */
  lemma {:induction false} TrimEndSpec(s: string)
    ensures var r := TrimEnd(s);
      && |r| <= |s| && r == s[..|r|]
      && (r == [] || !IsSpace(r[|r| - 1]))
      && (forall i :: |r| <= i < |s| ==> IsSpace(s[i]))
    decreases |s|
  {
    if s != [] && IsSpace(s[|s| - 1]) {
      TrimEndSpec(s[..|s| - 1]);
    }
  }

  /** `Strip` leaves a slice of `s` with no whitespace at either end, cutting
      off only whitespace; a string without whitespace is left as it is. */
  lemma StripSpec(s: string)
    ensures var r := Strip(s);
      && (r == [] || (!IsSpace(r[0]) && !IsSpace(r[|r| - 1])))
      && var a := |s| - |TrimStart(s)|;
      && 0 <= a <= a + |r| <= |s| && r == s[a..a + |r|]
      && AllSpace(s[..a]) && AllSpace(s[a + |r|..])
      && (NoSpace(s) ==> r == s)
  {
    StripSlice(s);
    StripEnds(s);
    if NoSpace(s) {
      StripNoSpace(s);
    }
  }

  lemma StripSlice(s: string)
    ensures var r := Strip(s);
      && var a := |s| - |TrimStart(s)|;
      && 0 <= a <= a + |r| <= |s| && r == s[a..a + |r|]
      && AllSpace(s[..a]) && AllSpace(s[a + |r|..])
  {
    StripMiddle(s);
    LeadingSpace(s);
    TrailingSpace(s);
  }

  lemma StripMiddle(s: string)
    ensures var a := |s| - |TrimStart(s)|;
      0 <= a <= a + |Strip(s)| <= |s| && Strip(s) == s[a..a + |Strip(s)|]
  {
    var t := TrimStart(s);
    var r := TrimEnd(t);
    TrimStartSpec(s);
    TrimEndSpec(t);
    var a := |s| - |t|;
    forall i | 0 <= i < |r| ensures r[i] == s[a + i] {
      assert r[i] == t[i];
    }
  }

  lemma LeadingSpace(s: string)
    ensures AllSpace(s[..|s| - |TrimStart(s)|])
  {
    TrimStartSpec(s);
    var d := s[..|s| - |TrimStart(s)|];
    forall i | 0 <= i < |d| ensures IsSpace(d[i]) {
      assert d[i] == s[i];
    }
  }

  lemma TrailingSpace(s: string)
    ensures |s| - |TrimStart(s)| + |Strip(s)| <= |s|
    ensures AllSpace(s[|s| - |TrimStart(s)| + |Strip(s)|..])
  {
    var t := TrimStart(s);
    var r := TrimEnd(t);
    TrimStartSpec(s);
    TrimEndSpec(t);
    var e := s[|s| - |t| + |r|..];
    forall i | 0 <= i < |e| ensures IsSpace(e[i]) {
      assert e[i] == t[|r| + i];
    }
  }

  lemma StripEnds(s: string)
    ensures var r := Strip(s);
      r == [] || (!IsSpace(r[0]) && !IsSpace(r[|r| - 1]))
  {
    var t := TrimStart(s);
    var r := TrimEnd(t);
    TrimStartSpec(s);
    TrimEndSpec(t);
    if r != [] {
      assert r[0] == t[0];
    }
  }

  lemma StripNoSpace(s: string)
    requires NoSpace(s)
    ensures Strip(s) == s
  {
    var t := TrimStart(s);
    TrimStartSpec(s);
    if s != [] {
      assert !IsSpace(s[0]);
    }
    assert t == s;
    TrimEndSpec(t);
    if t != [] {
      assert !IsSpace(t[|t| - 1]);
    }
  }

  /** The result of `Strip` keeps ASCII input ASCII. */
  lemma StripAscii(s: string)
    requires IsAscii(s)
    ensures IsAscii(Strip(s))
  {
    StripSpec(s);
    var r := Strip(s);
    var a := |s| - |TrimStart(s)|;
    forall i | 0 <= i < |r| ensures IsAsciiChar(r[i]) {
      assert r[i] == s[a + i];
    }
  }

  /** Any property that every character of `s` has, every character of the
      result of punctuation removal has too. */
  lemma {:induction false} RemovePunctuationKeeps(s: string, P: char -> bool)
    requires forall i :: 0 <= i < |s| ==> P(s[i])
    ensures forall i :: 0 <= i < |RemovePunctuation(s)| ==> P(RemovePunctuation(s)[i])
    decreases |s|
  {
    if s != [] {
      RemovePunctuationKeeps(s[1..], P);
    }
  }

  /** Punctuation removal keeps exactly the word and whitespace characters, in
      order: what remains is all kept characters, ASCII and upper-case-free
      input stays so, and a string of kept characters is left as it is. */
  lemma RemovePunctuationSpec(s: string)
    ensures var r := RemovePunctuation(s);
      && |r| <= |s|
      && AllKept(r)
      && (AllKept(s) ==> r == s)
      && (IsAscii(s) ==> IsAscii(r))
      && (NoUpper(s) ==> NoUpper(r))
  {
    RemovePunctuationKept(s);
    if IsAscii(s) {
      RemovePunctuationKeeps(s, IsAsciiChar);
    }
    if NoUpper(s) {
      RemovePunctuationKeeps(s, c => !IsUpper(c));
    }
  }

  lemma {:induction false} RemovePunctuationKept(s: string)
    ensures var r := RemovePunctuation(s);
      && |r| <= |s|
      && AllKept(r)
      && (AllKept(s) ==> r == s)
    decreases |s|
  {
    if s != [] {
      RemovePunctuationKept(s[1..]);
    }
  }

  /** Punctuation removal drops every occurrence of a character that is
      neither a word character nor whitespace and keeps every occurrence of
      one that is. */
  lemma {:induction false} RemovePunctuationCounts(s: string)
    ensures forall c :: multiset(RemovePunctuation(s))[c] == if IsKept(c) then multiset(s)[c] else 0
    decreases |s|
  {
    if s != [] {
      RemovePunctuationCounts(s[1..]);
      assert s == [s[0]] + s[1..];
    }
  }

  /** Any property that the underscore and every non-whitespace character of
      `s` have, every character of the collapsed string has too. */
  lemma {:induction false} CollapseKeeps(s: string, P: char -> bool)
    requires P('_')
    requires forall i :: 0 <= i < |s| ==> IsSpace(s[i]) || P(s[i])
    ensures forall i :: 0 <= i < |CollapseWhitespace(s)| ==> P(CollapseWhitespace(s)[i])
    decreases |s|
  {
    if s != [] {
      if IsSpace(s[0]) {
        var t := TrimStart(s);
        TrimStartSpec(s);
        forall i | 0 <= i < |t| ensures IsSpace(t[i]) || P(t[i]) {
          assert t[i] == s[|s| - |t| + i];
        }
        CollapseKeeps(t, P);
      } else {
        CollapseKeeps(s[1..], P);
      }
    }
  }

  /** Collapsing never lengthens a string and leaves a string without
      whitespace as it is. */
  lemma {:induction false} CollapseShape(s: string)
    ensures |CollapseWhitespace(s)| <= |s|
    ensures NoSpace(s) ==> CollapseWhitespace(s) == s
    decreases |s|
  {
    if s != [] {
      if IsSpace(s[0]) {
        CollapseShape(TrimStart(s));
      } else {
        CollapseShape(s[1..]);
      }
    }
  }

  /** Whitespace collapsing leaves no whitespace, keeps every other character,
      and leaves a string without whitespace as it is. */
  lemma CollapseWhitespaceSpec(s: string)
    ensures var r := CollapseWhitespace(s);
      && |r| <= |s|
      && NoSpace(r)
      && (NoSpace(s) ==> r == s)
      && (AllKept(s) && NoUpper(s) ==> forall i :: 0 <= i < |r| ==> IsSnakeChar(r[i]))
      && (IsAscii(s) ==> IsAscii(r))
  {
    CollapseShape(s);
    CollapseKeeps(s, c => !IsSpace(c));
    if AllKept(s) && NoUpper(s) {
      CollapseKeeps(s, IsSnakeChar);
    }
    if IsAscii(s) {
      CollapseKeeps(s, IsAsciiChar);
    }
  }

  /** Every character of a normalised name is a lower-case word character or
      an underscore; in particular it has no whitespace. */
  lemma SnakeCaseChars(name: string)
    ensures forall i :: 0 <= i < |ToSnakeCase(name)| ==> IsSnakeChar(ToSnakeCase(name)[i])
    ensures NoSpace(ToSnakeCase(name))
  {
    var lowered := Lower(Strip(name));
    RemovePunctuationSpec(lowered);
    CollapseWhitespaceSpec(RemovePunctuation(lowered));
  }

  /** On ASCII input the result uses only `a`-`z`, `0`-`9` and `_`. */
  lemma SnakeCaseAlphabet(name: string)
    requires IsAscii(name)
    ensures forall i :: 0 <= i < |ToSnakeCase(name)| ==>
      var c := ToSnakeCase(name)[i]; 'a' <= c <= 'z' || '0' <= c <= '9' || c == '_'
  {
    StripAscii(name);
    var lowered := Lower(Strip(name));
    assert IsAscii(lowered);
    RemovePunctuationSpec(lowered);
    CollapseWhitespaceSpec(RemovePunctuation(lowered));
    SnakeCaseChars(name);
    var r := ToSnakeCase(name);
    forall i | 0 <= i < |r| ensures 'a' <= r[i] <= 'z' || '0' <= r[i] <= '9' || r[i] == '_' {
      assert IsSnakeChar(r[i]) && IsAsciiChar(r[i]);
    }
  }

  /** Normalising a normalised name changes nothing. */
  lemma SnakeCaseIdempotent(name: string)
    ensures ToSnakeCase(ToSnakeCase(name)) == ToSnakeCase(name)
  {
    var s := ToSnakeCase(name);
    SnakeCaseChars(name);
    StripSpec(s);
    assert Strip(s) == s;
    assert Lower(s) == s;
    assert AllKept(s);
    RemovePunctuationSpec(s);
    CollapseWhitespaceSpec(s);
  }

  /** Punctuation removal works character by character, so it distributes
      over concatenation. */
  lemma {:induction false} RemovePunctuationAppend(a: string, b: string)
    ensures RemovePunctuation(a + b) == RemovePunctuation(a) + RemovePunctuation(b)
    decreases |a|
  {
    if a == [] {
      assert a + b == b;
    } else {
      assert (a + b)[0] == a[0] && (a + b)[1..] == a[1..] + b;
      RemovePunctuationAppend(a[1..], b);
    }
  }
  /** Characters before the first whitespace pass through collapsing unchanged. */
  lemma {:induction false} CollapseAfterWord(a: string, b: string)
    requires NoSpace(a)
    ensures CollapseWhitespace(a + b) == a + CollapseWhitespace(b)
    decreases |a|
  {
    if a == [] {
      assert a + b == b;
    } else {
      assert (a + b)[0] == a[0] && (a + b)[1..] == a[1..] + b;
      CollapseAfterWord(a[1..], b);
      assert a == [a[0]] + a[1..];
    }
  }
  /** A single space followed by a non-space becomes one underscore. */
  lemma CollapseAfterSpace(b: string)
    requires b == [] || !IsSpace(b[0])
    ensures CollapseWhitespace(" " + b) == "_" + CollapseWhitespace(b)
  {
    assert (" " + b)[1..] == b;
    assert TrimStart(b) == b;
  }

  /** Trimming a whitespace run in front of a non-space leaves exactly what follows the run. */
  lemma {:induction false} TrimRun(w: string, b: string)
    requires AllSpace(w) && (b == [] || !IsSpace(b[0]))
    ensures TrimStart(w + b) == b
    decreases |w|
  {
    if w == [] {
      assert w + b == b;
    } else {
      assert (w + b)[1..] == w[1..] + b;
      TrimRun(w[1..], b);
    }
  }

  /** A whole run of whitespace, however long, becomes a single underscore
      (the `+` of `\s+`). */
  lemma CollapseRun(w: string, b: string)
    requires w != [] && AllSpace(w) && (b == [] || !IsSpace(b[0]))
    ensures CollapseWhitespace(w + b) == "_" + CollapseWhitespace(b)
  {
    assert (w + b)[0] == w[0];
    TrimRun(w, b);
  }
  /** Three space-free words separated by single spaces collapse to the same
      words separated by underscores. */
  lemma CollapseThreeWords(x: string, y: string, z: string)
    requires NoSpace(x) && NoSpace(y) && NoSpace(z) && y != [] && z != []
    ensures CollapseWhitespace(x + (" " + (y + (" " + z)))) == x + ("_" + (y + ("_" + z)))
  {
    CollapseAfterWord(x, " " + (y + (" " + z)));
    CollapseAfterSpace(y + (" " + z));
    CollapseAfterWord(y, " " + z);
    CollapseAfterSpace(z);
    CollapseWhitespaceSpec(z);
  }

  /** Lower-casing works character by character, so it distributes over
      concatenation. */
  lemma LowerAppend(a: string, b: string)
    ensures Lower(a + b) == Lower(a) + Lower(b)
  {
  }

  /** Lower-casing keeps the length and which characters are whitespace,
      and leaves no upper-case letter. */
  lemma LowerSpaces(s: string)
    ensures |Lower(s)| == |s| && NoUpper(Lower(s))
    ensures forall i :: 0 <= i < |s| ==> (IsSpace(Lower(s)[i]) <==> IsSpace(s[i]))
  {
  }

  /** A name whose ends are not whitespace is not changed by `Strip`. */
  lemma StripUnchanged(s: string)
    requires s != [] && !IsSpace(s[0]) && !IsSpace(s[|s| - 1])
    ensures Strip(s) == s
  {
  }

  /** A string of word characters and whitespace is not touched by punctuation removal. */
  lemma KeptUnchanged(w: string)
    requires AllKept(w)
    ensures RemovePunctuation(w) == w
  {
    RemovePunctuationKept(w);
  }

  /** A single punctuation character is removed. */
  lemma PunctuationDropped(p: string)
    requires |p| == 1 && !IsKept(p[0])
    ensures RemovePunctuation(p) == []
  {
  }

  /** A bracketed pair `(x/y)` loses its brackets and its separator. */
  lemma RemovePunctuationPair(o: string, x: string, m: string, y: string, c: string)
    requires AllKept(x) && AllKept(y)
    requires |o| == 1 && !IsKept(o[0]) && |m| == 1 && !IsKept(m[0]) && |c| == 1 && !IsKept(c[0])
    ensures RemovePunctuation(o + (x + (m + (y + c)))) == x + y
  {
    RemovePunctuationAppend(o, x + (m + (y + c)));
    RemovePunctuationAppend(x, m + (y + c));
    RemovePunctuationAppend(m, y + c);
    RemovePunctuationAppend(y, c);
    KeptUnchanged(x);
    KeptUnchanged(y);
    PunctuationDropped(o);
    PunctuationDropped(m);
    PunctuationDropped(c);
  }

  /** Two words and their spaces in front of `rest` pass through punctuation
      removal unchanged. */
  lemma RemovePunctuationTwoWords(a: string, b: string, rest: string)
    requires AllKept(a) && AllKept(b)
    ensures RemovePunctuation(a + (" " + (b + (" " + rest))))
      == a + (" " + (b + (" " + RemovePunctuation(rest))))
  {
    RemovePunctuationAppend(a, " " + (b + (" " + rest)));
    RemovePunctuationAppend(" ", b + (" " + rest));
    RemovePunctuationAppend(b, " " + rest);
    RemovePunctuationAppend(" ", rest);
    KeptUnchanged(a);
    KeptUnchanged(" ");
    KeptUnchanged(b);
  }

  /** Every character is a word character. */
  predicate AllWord(s: string) { forall i :: 0 <= i < |s| ==> IsWordChar(s[i]) }

  /** Lower-casing a string of word characters gives a string of lower-case
      word characters. */
  lemma LowerWord(w: string)
    requires AllWord(w)
    ensures AllWord(Lower(w)) && AllKept(Lower(w)) && NoSpace(Lower(w))
  {
  }

  /** Lower-casing a bracketed header lower-cases its words and keeps the
      spaces and punctuation. */
  lemma LowerBracketed(a: string, b: string, o: string, x: string, m: string, y: string, c: string)
    requires |o| == 1 && !IsKept(o[0]) && |m| == 1 && !IsKept(m[0]) && |c| == 1 && !IsKept(c[0])
    ensures Lower(a + (" " + (b + (" " + (o + (x + (m + (y + c))))))))
      == Lower(a) + (" " + (Lower(b) + (" " + (o + (Lower(x) + (m + (Lower(y) + c)))))))
  {
    assert Lower(o) == o && Lower(m) == m && Lower(c) == c && Lower(" ") == " ";
    LowerAppend(a, " " + (b + (" " + (o + (x + (m + (y + c)))))));
    LowerAppend(" ", b + (" " + (o + (x + (m + (y + c))))));
    LowerAppend(b, " " + (o + (x + (m + (y + c)))));
    LowerAppend(" ", o + (x + (m + (y + c))));
    LowerAppend(o, x + (m + (y + c)));
    LowerAppend(x, m + (y + c));
    LowerAppend(m, y + c);
    LowerAppend(y, c);
  }

  /** The lower-cased header `a b (x/y)` collapses to `a_b_xy`. */
  lemma NormaliseBracketed(a: string, b: string, o: string, x: string, m: string, y: string, c: string)
    requires AllWord(a) && AllWord(b) && AllWord(x) && AllWord(y) && b != [] && x + y != []
    requires AllKept(a) && AllKept(b) && AllKept(x) && AllKept(y)
    requires |o| == 1 && !IsKept(o[0]) && |m| == 1 && !IsKept(m[0]) && |c| == 1 && !IsKept(c[0])
    ensures CollapseWhitespace(RemovePunctuation(a + (" " + (b + (" " + (o + (x + (m + (y + c)))))))))
      == a + ("_" + (b + ("_" + (x + y))))
  {
    RemovePunctuationTwoWords(a, b, o + (x + (m + (y + c))));
    RemovePunctuationPair(o, x, m, y, c);
    assert NoSpace(a) && NoSpace(b) && NoSpace(x + y);
    CollapseThreeWords(a, b, x + y);
  }

  /** A header `A B (X/Y)`: two words, a space-separated bracketed pair of
      words. Its normal form is `a_b_xy`, with `a`, `b`, `x`, `y` the
      lower-cased words. */
  lemma SnakeCaseBracketed(h: string, a: string, b: string, o: string, x: string, m: string, y: string, c: string)
    requires AllWord(a) && AllWord(b) && AllWord(x) && AllWord(y) && a != [] && b != [] && x + y != []
    requires |o| == 1 && !IsKept(o[0]) && |m| == 1 && !IsKept(m[0]) && |c| == 1 && !IsKept(c[0])
    requires h == a + (" " + (b + (" " + (o + (x + (m + (y + c)))))))
    ensures ToSnakeCase(h) == Lower(a) + ("_" + (Lower(b) + ("_" + (Lower(x) + Lower(y)))))
  {
    assert h[0] == a[0] && h[|h| - 1] == c[0];
    StripUnchanged(h);
    LowerBracketed(a, b, o, x, m, y, c);
    LowerWord(a);
    LowerWord(b);
    LowerWord(x);
    LowerWord(y);
    assert Lower(x) + Lower(y) != [];
    NormaliseBracketed(Lower(a), Lower(b), o, Lower(x), m, Lower(y), c);
  }

  lemma ChurnHeaderWords()
    ensures "Churn Status (Yes/No)" == "Churn" + (" " + ("Status" + (" " + ("(" + ("Yes" + ("/" + ("No" + ")")))))))
  {
  }

  lemma ChurnWordsLowered()
    ensures Lower("Churn") == "churn" && Lower("Status") == "status"
    ensures Lower("Yes") == "yes" && Lower("No") == "no"
  {
  }

  lemma ChurnColumnWords()
    ensures "churn" + ("_" + ("status" + ("_" + ("yes" + "no")))) == "churn_status_yesno"
  {
  }

  /** The dataset's churn header normalises to the default churn column name. */
  lemma ChurnHeader()
    ensures ToSnakeCase("Churn Status (Yes/No)") == "churn_status_yesno"
  {
    ChurnHeaderWords();
    SnakeCaseBracketed("Churn Status (Yes/No)", "Churn", "Status", "(", "Yes", "/", "No", ")");
    ChurnWordsLowered();
    ChurnColumnWords();
  }
}
