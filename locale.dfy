/** Splitting a locale string such as `en_US@euro` into the language, country and
    modifier the desktop-entry parser uses to pick localized keys. Each part is kept only
    when it is made of ASCII letters and ends where the next part begins. */
module Locale {
  import opened Links

  /** The letter test of the scanning loops: `A`..`Z` or `a`..`z`. */
  predicate IsLetter(c: char) {
    ('A' <= c <= 'Z') || ('a' <= c <= 'z')
  }

  predicate AllLetters(s: string) {
    forall k :: 0 <= k < |s| ==> IsLetter(s[k])
  }

  /** The index where a run of letters starting at `i` ends: the first non-letter at or
      after `i`, or the end of the string. */
  function LetterSpan(s: string, i: nat): (j: nat)
    requires i <= |s|
    ensures i <= j <= |s|
    ensures forall k :: i <= k < j ==> IsLetter(s[k])
    ensures j < |s| ==> !IsLetter(s[j])
    decreases |s| - i
  {
    if i == |s| || !IsLetter(s[i]) then i else LetterSpan(s, i + 1)
  }

  /** The three parts; a part that was not found (a NULL string) is `None`. */
  datatype LocaleParts = LocaleParts(language: Option<string>, country: Option<string>, modifier: Option<string>)

  /** The split the constructor computes. The language is the leading run of letters when
      the string ends there or goes on with `_`, `.` or `@`. The country is looked for only
      after a language and a `_`, and is kept when its letters end the string or are
      followed by `.` or `@`. A `.` after the country starts the codeset scan, which stops
      at the first non-letter, so at that `.` itself. The modifier is looked for only after a
      country when the scan stands on `@`, and is kept when the rest is all letters. */
  function SplitSpec(s: string): LocaleParts {
    var i := LetterSpan(s, 0);
    var language := if i == |s| || s[i] == '_' || s[i] == '.' || s[i] == '@' then Some(s[..i]) else None;
    if !(language.Some? && i < |s| && s[i] == '_') then LocaleParts(language, None, None)
    else
      var (country, modifier) := TailSpec(s[i + 1..]);
      LocaleParts(language, country, modifier)
  }

  /** The country and the modifier found in `rest`, the text after the language's `_`. */
  function TailSpec(rest: string): (Option<string>, Option<string>) {
    var j := LetterSpan(rest, 0);
    var country := if j == |rest| || rest[j] == '.' || rest[j] == '@' then Some(rest[..j]) else None;
    var j2 := if country.Some? && j < |rest| && rest[j] == '.' then LetterSpan(rest, j) else j;
    if !(country.Some? && j2 < |rest| && rest[j2] == '@') then (country, None)
    else
      var tail := rest[j2 + 1..];
      var m := LetterSpan(tail, 0);
      (country, if m == |tail| then Some(tail) else None)
  }

  /** One of the scanning loops: walks over letters from `i`. */
  method ScanLetters(s: string, i: nat) returns (j: nat)
    requires i <= |s|
    ensures j == LetterSpan(s, i)
  {
    j := i;
    while j < |s| && IsLetter(s[j])
      invariant i <= j <= |s|
      invariant LetterSpan(s, j) == LetterSpan(s, i)
    {
      j := j + 1;
    }
  }

  /** The locale parsing at the start of `obt_linkbase_new`. */
  method SplitLocale(locale: string) returns (parts: LocaleParts)
    ensures parts == SplitSpec(locale)
  {
    var language: Option<string> := None;
    var country: Option<string> := None;
    var modifier: Option<string> := None;
    var i := ScanLetters(locale, 0);
    if i == |locale| || locale[i] == '_' || locale[i] == '.' || locale[i] == '@' {
      language := Some(locale[..i]);
    }
    if language.Some? && i < |locale| && locale[i] == '_' {
      country, modifier := SplitTail(locale[i + 1..]);
    }
    parts := LocaleParts(language, country, modifier);
  }

  /** The country and modifier loops, on the text after the language's `_`. A country that
      is not found leaves the codeset and modifier tests false, so they are only reached
      from here. */
  method SplitTail(rest: string) returns (country: Option<string>, modifier: Option<string>)
    ensures (country, modifier) == TailSpec(rest)
  {
    country, modifier := None, None;
    var s := rest;
    var i := ScanLetters(s, 0);
    if i == |s| || s[i] == '.' || s[i] == '@' {
      country := Some(s[..i]);
    }
    if country.Some? && i < |s| && s[i] == '.' {
      i := ScanLetters(s, i);
    }
    if country.Some? && i < |s| && s[i] == '@' {
      s := s[i + 1..];
      i := ScanLetters(s, 0);
      if i == |s| {
        modifier := Some(s);
      }
    }
  }

  /** A run of letters followed by a non-letter (or the end) is exactly what `LetterSpan`
      measures. */
  lemma SpanOf(s: string, n: nat)
    requires n <= |s|
    requires AllLetters(s[..n])
    requires n == |s| || !IsLetter(s[n])
    ensures LetterSpan(s, 0) == n
  {
  }

  /** The language is found exactly when the string opens with a run of letters that ends
      the string or is followed by `_`, `.` or `@`; it is that run. */
  lemma LanguageIff(s: string, lang: string)
    ensures SplitSpec(s).language == Some(lang) <==>
      && AllLetters(lang)
      && |lang| <= |s| && s[..|lang|] == lang
      && (|lang| == |s| || s[|lang|] in {'_', '.', '@'})
  {
    var n := |lang|;
    if AllLetters(lang) && n <= |s| && s[..n] == lang && (n == |s| || s[n] in {'_', '.', '@'}) {
      SpanOf(s, n);
    }
    if SplitSpec(s).language == Some(lang) {
      assert forall k :: 0 <= k < n ==> lang[k] == s[k];
    }
  }

  /** Language and country are both found exactly when the string opens with letters, `_`
      and letters, and the second run ends the string or is followed by `.` or `@`. */
  lemma CountryIff(s: string, lang: string, c: string)
    ensures (SplitSpec(s).language == Some(lang) && SplitSpec(s).country == Some(c)) <==>
      && AllLetters(lang) && AllLetters(c)
      && |lang| + 1 + |c| <= |s| && s[..|lang| + 1 + |c|] == lang + "_" + c
      && (|lang| + 1 + |c| == |s| || s[|lang| + 1 + |c|] in {'.', '@'})
  {
    var e := |lang| + 1 + |c|;
    if AllLetters(lang) && AllLetters(c) && e <= |s| && s[..e] == lang + "_" + c
       && (e == |s| || s[e] in {'.', '@'})
    {
      CountryFound(s, lang, c);
    }
    if SplitSpec(s).language == Some(lang) && SplitSpec(s).country == Some(c) {
      CountryShape(s, lang, c);
    }
  }

  /** The "if" half of `CountryIff`. */
  lemma CountryFound(s: string, lang: string, c: string)
    requires AllLetters(lang) && AllLetters(c)
    requires |lang| + 1 + |c| <= |s| && s[..|lang| + 1 + |c|] == lang + "_" + c
    requires |lang| + 1 + |c| == |s| || s[|lang| + 1 + |c|] in {'.', '@'}
    ensures SplitSpec(s).language == Some(lang) && SplitSpec(s).country == Some(c)
  {
    var n := |lang|;
    var e := n + 1 + |c|;
    var pre := lang + "_" + c;
    assert forall k :: 0 <= k < e ==> s[k] == pre[k];
    assert forall k :: 0 <= k < n ==> pre[k] == lang[k];
    assert pre[n] == '_';
    assert forall k :: 0 <= k < |c| ==> pre[n + 1 + k] == c[k];
    assert s[..n] == lang;
    SpanOf(s, n);
    var rest := s[n + 1..];
    assert rest[..|c|] == c;
    assert |c| == |rest| || rest[|c|] == s[e];
    SpanOf(rest, |c|);
  }

  /** The "only if" half of `CountryIff`. */
  lemma CountryShape(s: string, lang: string, c: string)
    requires SplitSpec(s).language == Some(lang) && SplitSpec(s).country == Some(c)
    ensures AllLetters(lang) && AllLetters(c)
    ensures |lang| + 1 + |c| <= |s| && s[..|lang| + 1 + |c|] == lang + "_" + c
    ensures |lang| + 1 + |c| == |s| || s[|lang| + 1 + |c|] in {'.', '@'}
  {
    var n := |lang|;
    var i := LetterSpan(s, 0);
    assert s[..i] == lang;
    var rest := s[i + 1..];
    var j := LetterSpan(rest, 0);
    assert rest[..j] == c;
    assert s[..n + 1 + |c|] == s[..n] + [s[n]] + rest[..j];
  }

  /** All three parts are found exactly when the string is letters, `_`, letters, `@`,
      letters and nothing else. */
  lemma ModifierIff(s: string, lang: string, c: string, m: string)
    ensures SplitSpec(s) == LocaleParts(Some(lang), Some(c), Some(m)) <==>
      && AllLetters(lang) && AllLetters(c) && AllLetters(m)
      && s == lang + "_" + c + "@" + m
  {
    if AllLetters(lang) && AllLetters(c) && AllLetters(m) && s == lang + "_" + c + "@" + m {
      ModifierFound(s, lang, c, m);
    }
    if SplitSpec(s) == LocaleParts(Some(lang), Some(c), Some(m)) {
      ModifierShape(s, lang, c, m);
    }
  }

  /** The "if" half of `ModifierIff`. */
  lemma ModifierFound(s: string, lang: string, c: string, m: string)
    requires AllLetters(lang) && AllLetters(c) && AllLetters(m)
    requires s == lang + "_" + c + "@" + m
    ensures SplitSpec(s) == LocaleParts(Some(lang), Some(c), Some(m))
  {
    var n := |lang|;
    var e := n + 1 + |c|;
    assert forall k :: 0 <= k < n ==> s[k] == lang[k];
    assert s[n] == '_' && s[e] == '@';
    assert s[..n] == lang;
    SpanOf(s, n);
    var rest := s[n + 1..];
    assert forall k :: 0 <= k < |c| ==> rest[k] == c[k];
    assert rest[|c|] == '@';
    assert rest[..|c|] == c;
    SpanOf(rest, |c|);
    var tail := rest[|c| + 1..];
    assert forall k :: 0 <= k < |m| ==> tail[k] == m[k];
    assert tail == m;
    SpanOf(m, |m|);
  }

  /** The "only if" half of `ModifierIff`. */
  lemma ModifierShape(s: string, lang: string, c: string, m: string)
    requires SplitSpec(s) == LocaleParts(Some(lang), Some(c), Some(m))
    ensures AllLetters(lang) && AllLetters(c) && AllLetters(m)
    ensures s == lang + "_" + c + "@" + m
  {
    SplitAtLanguage(s);
    var i := LetterSpan(s, 0);
    TailShape(s[i + 1..], c, m);
    JoinParts(s, i, c, m);
  }

  /** A string cut at a `_` is the text before it, `_`, and the text after it. */
  lemma JoinParts(s: string, i: nat, c: string, m: string)
    requires i < |s| && s[i] == '_'
    requires s[i + 1..] == c + "@" + m
    ensures s == s[..i] + "_" + c + "@" + m
  {
    assert s == s[..i] + [s[i]] + s[i + 1..];
    assert s[..i] + "_" + c + "@" + m == s[..i] + "_" + (c + "@" + m);
  }

  /** Once a country is found, the string is the language, `_`, and the text the country
      and modifier come from. */
  lemma SplitAtLanguage(s: string)
    requires SplitSpec(s).country.Some?
    ensures var i := LetterSpan(s, 0);
      && i < |s| && s[i] == '_'
      && SplitSpec(s) == LocaleParts(Some(s[..i]), TailSpec(s[i + 1..]).0, TailSpec(s[i + 1..]).1)
  {
  }

  /** After the language, a country and a modifier are both found only in letters, `@`,
      letters. */
  lemma TailShape(rest: string, c: string, m: string)
    requires TailSpec(rest) == (Some(c), Some(m))
    ensures AllLetters(c) && AllLetters(m)
    ensures rest == c + "@" + m
  {
    var j := LetterSpan(rest, 0);
    assert rest[..j] == c;
    assert j < |rest| && rest[j] == '@';
    var tail := rest[j + 1..];
    assert tail == m;
    assert rest == rest[..j] + [rest[j]] + tail;
  }

  /** As written, the codeset scan starts on the `.` and stops there at once, since `.` is
      not a letter; the modifier test then sees `.` rather than `@`, so a locale with a
      codeset never yields a modifier. */
  lemma CodesetHidesModifier(s: string, lang: string, c: string, rest: string)
    requires AllLetters(lang) && AllLetters(c)
    requires s == lang + "_" + c + "." + rest
    ensures SplitSpec(s) == LocaleParts(Some(lang), Some(c), None)
  {
    var e := |lang| + 1 + |c|;
    assert s[..e] == lang + "_" + c && s[e] == '.';
    CountryIff(s, lang, c);
    var r := s[|lang| + 1..];
    assert LetterSpan(r, 0) == |c|;
    assert r[|c|] == '.';
  }

  /** `en_US.UTF-8@euro` gives language `en` and country `US` but no modifier. */
  lemma CodesetExample()
    ensures SplitSpec("en_US.UTF-8@euro") == LocaleParts(Some("en"), Some("US"), None)
  {
    CodesetHidesModifier("en_US.UTF-8@euro", "en", "US", "UTF-8@euro");
  }

  /** `en_US@euro` gives all three parts. */
  lemma ModifierExample()
    ensures SplitSpec("en_US@euro") == LocaleParts(Some("en"), Some("US"), Some("euro"))
  {
    assert AllLetters("en") && AllLetters("US") && AllLetters("euro");
    assert "en_US@euro" == "en" + "_" + "US" + "@" + "euro";
    ModifierFound("en_US@euro", "en", "US", "euro");
  }
}
