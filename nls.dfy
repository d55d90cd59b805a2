/** Localisation helpers (`src/nls.rs`): locale strings, message catalogs
  * with fallback to the message id, plural-form selection, `{i}`
  * placeholder substitution and the encoding-conversion guard. */
module Nls {
  import opened Common
  import opened Text

  // ---------------------------------------------------------------------
  // Locale strings

  datatype LocaleInfo = LocaleInfo(language: string, country: Option<string>, encoding: string, localeString: string)
  {
    /** `to_locale_string`: `language_country.encoding`, or
      * `language.encoding` without a country. */
    function ToLocaleString(): string {
      match country
      case Some(c) => language + "_" + c + "." + encoding
      case None => language + "." + encoding
    }

    /** `is_utf8`: the upper-cased encoding mentions `UTF-8`. */
    predicate IsUtf8() {
      Contains(ToAsciiUpper(encoding), "UTF-8")
    }
  }

  /** `from_locale_string`: the text before the first `.` splits at `_`
    * into language and country; the text between the first and second `.`
    * is the encoding, `UTF-8` when there is no `.`. */
  function FromLocaleString(locale: string): LocaleInfo {
    var parts := Split(locale, '.');
    var langCountry := Split(parts[0], '_');
    LocaleInfo(
      langCountry[0],
      if |langCountry| >= 2 then Some(langCountry[1]) else None,
      if |parts| >= 2 then parts[1] else "UTF-8",
      locale)
  }

  /** Missing parts take their defaults: no `.` means encoding `UTF-8`, no
    * `_` means no country, and with neither the whole string is the
    * language. */
  lemma FromLocaleStringDefaults(locale: string)
    ensures FromLocaleString(locale).localeString == locale
    ensures '.' !in locale ==> FromLocaleString(locale).encoding == "UTF-8"
    ensures '_' !in locale ==> FromLocaleString(locale).country == None
    ensures '.' !in locale && '_' !in locale ==> FromLocaleString(locale).language == locale
  {
    if '.' !in locale {
      SplitNoSep(locale, '.');
    }
    var first := Split(locale, '.')[0];
    SplitFirst(locale, '.');
    if '_' !in locale {
      assert first == locale[..|first|];
      assert '_' !in first;
      SplitNoSep(first, '_');
    }
  }

  /** A locale with no `.` in any field and no `_` in language or country
    * reads back from its own locale string. */
  lemma {:induction false} LocaleRoundTrip(info: LocaleInfo)
    requires '.' !in info.language && '_' !in info.language && '.' !in info.encoding
    requires info.country.Some? ==> '.' !in info.country.value && '_' !in info.country.value
    ensures FromLocaleString(info.ToLocaleString()).language == info.language
    ensures FromLocaleString(info.ToLocaleString()).country == info.country
    ensures FromLocaleString(info.ToLocaleString()).encoding == info.encoding
  {
    var head := match info.country case Some(c) => info.language + "_" + c case None => info.language;
    assert info.ToLocaleString() == head + ['.'] + info.encoding;
    assert '.' !in head;
    SplitPrefix(head, '.', info.encoding);
    SplitNoSep(info.encoding, '.');
    assert Split(info.ToLocaleString(), '.') == [head, info.encoding];
    match info.country
    case Some(c) =>
      assert head == info.language + ['_'] + c;
      SplitPrefix(info.language, '_', c);
      SplitNoSep(c, '_');
    case None =>
      SplitNoSep(info.language, '_');
  }

  /** `en_US.UTF-8`, also the default locale, reads as language `en`,
    * country `US`, encoding `UTF-8`. */
  lemma DefaultLocaleExample()
    ensures FromLocaleString("en_US.UTF-8") == LocaleInfo("en", Some("US"), "UTF-8", "en_US.UTF-8")
  {
    var en := LocaleInfo("en", Some("US"), "UTF-8", "en_US.UTF-8");
    assert en.ToLocaleString() == "en_US.UTF-8";
    LocaleRoundTrip(en);
  }

  /** Any spelling of `utf-8` is a UTF-8 encoding. */
  lemma Utf8Example(info: LocaleInfo)
    requires info.encoding in {"UTF-8", "utf-8"}
    ensures info.IsUtf8()
  {
    assert Contains("UTF-8", "UTF-8") by {
      ContainsConcat([], "UTF-8", []);
      assert [] + "UTF-8" + [] == "UTF-8";
    }
    assert ToAsciiUpper(info.encoding) == "UTF-8" by {
      var u := ToAsciiUpper(info.encoding);
      assert u[0] == 'U' && u[1] == 'T' && u[2] == 'F' && u[3] == '-' && u[4] == '8';
    }
  }

  /** A bare language takes no country and the `UTF-8` encoding. */
  lemma BareLanguageExample()
    ensures FromLocaleString("fr") == LocaleInfo("fr", None, "UTF-8", "fr")
  {
    FromLocaleStringDefaults("fr");
  }

  // ---------------------------------------------------------------------
  // Message catalogs

  class MessageCatalog {
    var language: string
    var translations: map<string, string>

    /** `MessageCatalog::new`: an empty catalog for the language. */
    constructor New(lang: string)
      ensures language == lang && translations == map[]
    {
      language := lang;
      translations := map[];
    }

    /** `has_translation`. */
    predicate HasTranslation(messageId: string)
      reads this
    {
      messageId in translations
    }

    /** `translate`: the stored translation, or the message id itself. */
    function Translate(messageId: string): (text: string)
      reads this
      ensures HasTranslation(messageId) ==> text == translations[messageId]
      ensures !HasTranslation(messageId) ==> text == messageId
    {
      if messageId in translations then translations[messageId] else messageId
    }

    /** `add_translation`: stores or replaces the translation of one id,
      * leaving every other id's translation as it was. */
    method AddTranslation(messageId: string, translation: string)
      modifies this
      ensures language == old(language)
      ensures translations == old(translations)[messageId := translation]
      ensures HasTranslation(messageId) && Translate(messageId) == translation
      ensures forall m :: m != messageId ==> Translate(m) == old(Translate(m))
    {
      translations := translations[messageId := translation];
    }
  }

  /** `create_default_error_catalog`: an English catalog for eight common
    * errors. */
  method CreateDefaultErrorCatalog() returns (catalog: MessageCatalog)
    ensures fresh(catalog) && catalog.language == "en"
    ensures catalog.translations == map[
      "file_not_found" := "File not found",
      "permission_denied" := "Permission denied",
      "invalid_path" := "Invalid path",
      "repository_locked" := "Repository is locked",
      "working_copy_locked" := "Working copy is locked",
      "merge_conflict" := "Merge conflict",
      "network_error" := "Network error",
      "authentication_failed" := "Authentication failed"]
    ensures catalog.Translate("file_not_found") == "File not found"
    ensures catalog.HasTranslation("merge_conflict")
  {
    catalog := new MessageCatalog.New("en");
    catalog.AddTranslation("file_not_found", "File not found");
    catalog.AddTranslation("permission_denied", "Permission denied");
    catalog.AddTranslation("invalid_path", "Invalid path");
    catalog.AddTranslation("repository_locked", "Repository is locked");
    catalog.AddTranslation("working_copy_locked", "Working copy is locked");
    catalog.AddTranslation("merge_conflict", "Merge conflict");
    catalog.AddTranslation("network_error", "Network error");
    catalog.AddTranslation("authentication_failed", "Authentication failed");
  }

  // ---------------------------------------------------------------------
  // Plural forms

  datatype PluralRule =
    | English
    | Romance
    | Slavic
    | Custom(rule: nat -> nat)

  /** `get_plural_index` for a count. */
  function PluralIndex(rule: PluralRule, count: nat): (index: nat)
    ensures rule.English? ==> index <= 1 && (index == 0 <==> count == 1)
    ensures rule.Romance? ==> index <= 1 && (index == 0 <==> count <= 1)
    ensures rule.Slavic? ==> index <= 2
    ensures rule.Slavic? ==> (index == 0 <==> count % 10 == 1 && count % 100 != 11)
    ensures rule.Slavic? ==>
              (index == 1 <==> 2 <= count % 10 <= 4 && !(10 <= count % 100 < 20))
    ensures rule.Custom? ==> index == rule.rule(count)
  {
    match rule
    case English => if count == 1 then 0 else 1
    case Romance => if count <= 1 then 0 else 1
    case Slavic =>
      if count % 10 == 1 && count % 100 != 11 then 0
      else if 2 <= count % 10 <= 4 && (count % 100 < 10 || count % 100 >= 20) then 1
      else 2
    case Custom(f) => f(count)
  }

  /** The teens always take the plural form under the Slavic rule. */
  lemma SlavicTeens(count: nat)
    requires 10 <= count % 100 < 20
    ensures PluralIndex(Slavic, count) == 2
  {
  }

  // ---------------------------------------------------------------------
  // Placeholders

  /** `{i}`. */
  function Placeholder(i: nat): (p: string)
    ensures p != [] && p[0] == '{'
  {
    "{" + NatToString(i) + "}"
  }

  /** The result of replacing `{i}`, then `{i+1}`, ... by the arguments. */
  function Substituted(s: string, args: seq<string>, i: nat): string
    requires i <= |args|
    decreases |args| - i
  {
    if i == |args| then s else Substituted(Replace(s, Placeholder(i), args[i]), args, i + 1)
  }

  /** The placeholder loop of `translate_message_with_args` over the
    * translated text: each argument in turn replaces every occurrence of
    * its `{i}`. */
  method SubstituteArgs(translated: string, args: seq<string>) returns (result: string)
    ensures result == Substituted(translated, args, 0)
  {
    result := translated;
    for i := 0 to |args|
      invariant Substituted(result, args, i) == Substituted(translated, args, 0)
    {
      result := Replace(result, Placeholder(i), args[i]);
    }
  }

  /** Text without `{` is left as it is. */
  lemma {:induction false} SubstituteNoBrace(s: string, args: seq<string>, i: nat)
    requires i <= |args| && '{' !in s
    ensures Substituted(s, args, i) == s
    decreases |args| - i
  {
    if i < |args| {
      assert !Contains(s, Placeholder(i));
      ReplaceNoMatch(s, Placeholder(i), args[i]);
      SubstituteNoBrace(s, args, i + 1);
    }
  }

  /** One placeholder never starts where another one does. */
  lemma PlaceholderNotPrefix(j: nat, k: nat, rest: string)
    requires j != k
    ensures !StartsWith(Placeholder(j) + rest, Placeholder(k))
  {
    var s, pat := Placeholder(j) + rest, Placeholder(k);
    var dj, dk := NatToString(j), NatToString(k);
    if |pat| <= |s| {
      if |dk| == |dj| {
        if dk == dj {
          NatToStringInjective(j, k);
        }
        assert pat[1..1 + |dk|] == dk;
        assert s[..|pat|][1..1 + |dj|] == dj;
      } else if |dk| < |dj| {
        assert pat[1 + |dk|] == '}';
        assert s[..|pat|][1 + |dk|] == dj[|dk|];
      } else {
        assert s[1 + |dj|] == '}';
        assert pat[1 + |dj|] == dk[|dj|];
      }
    }
  }

  /** A placeholder is `{` followed by digits and `}`, with no other `{`. */
  lemma PlaceholderTail(j: nat)
    ensures Placeholder(j) == "{" + (NatToString(j) + "}")
    ensures '{' !in NatToString(j) + "}"
  {
    var d := NatToString(j);
    assert forall x :: 0 <= x < |d| ==> IsDigit(d[x]);
    assert forall x :: 0 <= x < |d + "}"| ==> (d + "}")[x] != '{';
  }

  /** One placeholder never matches at the position of another. */
  lemma PlaceholderSkip(j: nat, k: nat, rest: string, rep: string)
    requires j != k
    ensures Replace(Placeholder(j) + rest, Placeholder(k), rep) == Placeholder(j) + Replace(rest, Placeholder(k), rep)
  {
    var s, pat := Placeholder(j) + rest, Placeholder(k);
    if |s| >= |pat| {
      PlaceholderSkipLong(j, k, rest, rep);
    } else {
      assert |rest| < |pat|;
    }
  }

  /** `PlaceholderSkip` when the text is long enough to hold the pattern. */
  lemma PlaceholderSkipLong(j: nat, k: nat, rest: string, rep: string)
    requires j != k
    requires |Placeholder(j) + rest| >= |Placeholder(k)|
    ensures Replace(Placeholder(j) + rest, Placeholder(k), rep) == Placeholder(j) + Replace(rest, Placeholder(k), rep)
  {
    var s, pat := Placeholder(j) + rest, Placeholder(k);
    var tail := NatToString(j) + "}";
    assert s[..|pat|] != pat by {
      PlaceholderNotPrefix(j, k, rest);
    }
    assert Placeholder(j) == "{" + tail && s[0] == '{' && s[1..] == tail + rest && '{' !in tail by {
      PlaceholderTail(j);
    }
    assert Replace(tail + rest, pat, rep) == tail + Replace(rest, pat, rep) by {
      ReplaceSkip(tail, rest, pat, rep);
    }
    ReplaceMiss(s, pat, rep);
    AppendAssoc("{", tail, Replace(rest, pat, rep));
  }

  /** Fixed text and arguments free of `{`, with one piece more than there
    * are arguments. */
  predicate PlainTemplate(pieces: seq<string>, args: seq<string>) {
    |pieces| == |args| + 1
    && (forall i :: 0 <= i < |pieces| ==> '{' !in pieces[i])
    && (forall i :: 0 <= i < |args| ==> '{' !in args[i])
  }

  /** Slot `i` once the first `k` placeholders are filled. */
  function Slot(args: seq<string>, k: nat, i: nat): string
    requires i < |args|
  {
    if i < k then args[i] else Placeholder(i)
  }

  /** The pieces from `i` on, with slots between them. */
  function FillFrom(pieces: seq<string>, args: seq<string>, k: nat, i: nat): string
    requires |pieces| == |args| + 1 && i <= |args|
    decreases |args| - i
  {
    if i == |args| then pieces[i] else pieces[i] + Slot(args, k, i) + FillFrom(pieces, args, k, i + 1)
  }

  /** `pieces[0] {0} pieces[1] {1} ... pieces[n]`. */
  function Template(pieces: seq<string>, args: seq<string>): string
    requires |pieces| == |args| + 1
  {
    FillFrom(pieces, args, 0, 0)
  }

  /** `pieces[0] args[0] pieces[1] args[1] ... pieces[n]`. */
  function Filled(pieces: seq<string>, args: seq<string>): string
    requires |pieces| == |args| + 1
  {
    FillFrom(pieces, args, |args|, 0)
  }

  /** Replacing `{k}` fills slot `k`, keeps every other slot, and moves on
    * to the text after the slot. */
  lemma SlotStep(args: seq<string>, k: nat, i: nat, rest: string)
    requires k < |args| && i < |args| && forall x :: 0 <= x < |args| ==> '{' !in args[x]
    ensures Replace(Slot(args, k, i) + rest, Placeholder(k), args[k])
            == Slot(args, k + 1, i) + Replace(rest, Placeholder(k), args[k])
  {
    if i < k {
      ReplaceSkip(args[i], rest, Placeholder(k), args[k]);
    } else if i == k {
      ReplaceHere(rest, Placeholder(k), args[k]);
    } else {
      PlaceholderSkip(i, k, rest, args[k]);
    }
  }

  /** Replacing `{k}` fills exactly slot `k`. */
  lemma {:induction false} FillStep(pieces: seq<string>, args: seq<string>, k: nat, i: nat)
    requires PlainTemplate(pieces, args) && k < |args| && i <= |args|
    ensures Replace(FillFrom(pieces, args, k, i), Placeholder(k), args[k]) == FillFrom(pieces, args, k + 1, i)
    decreases |args| - i
  {
    var pat := Placeholder(k);
    if i == |args| {
      ReplaceSkip(pieces[i], [], pat, args[k]);
      assert pieces[i] + [] == pieces[i];
    } else {
      var rest, restFilled := FillFrom(pieces, args, k, i + 1), FillFrom(pieces, args, k + 1, i + 1);
      var slot, filled := Slot(args, k, i), Slot(args, k + 1, i);
      assert Replace(slot + rest, pat, args[k]) == filled + Replace(rest, pat, args[k]) by {
        SlotStep(args, k, i, rest);
      }
      assert Replace(rest, pat, args[k]) == restFilled by {
        FillStep(pieces, args, k, i + 1);
      }
      assert Replace(pieces[i] + (slot + rest), pat, args[k]) == pieces[i] + (filled + restFilled) by {
        assert '{' !in pieces[i];
        PieceStep(pieces[i], slot, filled, rest, restFilled, pat, args[k]);
      }
      FillFromUnfold(pieces, args, k, i);
      FillFromUnfold(pieces, args, k + 1, i);
    }
  }

  /** Replacing past a piece free of the pattern's first character, then
    * past a slot, then in the rest. */
  lemma PieceStep(piece: string, slot: string, filled: string, rest: string, restFilled: string, pat: string, rep: string)
    requires pat != [] && pat[0] !in piece
    requires Replace(slot + rest, pat, rep) == filled + Replace(rest, pat, rep)
    requires Replace(rest, pat, rep) == restFilled
    ensures Replace(piece + (slot + rest), pat, rep) == piece + (filled + restFilled)
  {
    ReplaceSkip(piece, slot + rest, pat, rep);
  }

  /** One step of `FillFrom` before the last piece. */
  lemma FillFromUnfold(pieces: seq<string>, args: seq<string>, k: nat, i: nat)
    requires |pieces| == |args| + 1 && i < |args|
    ensures FillFrom(pieces, args, k, i) == pieces[i] + (Slot(args, k, i) + FillFrom(pieces, args, k, i + 1))
  {
  }

  lemma {:induction false} SubstituteFrom(pieces: seq<string>, args: seq<string>, k: nat)
    requires PlainTemplate(pieces, args) && k <= |args|
    ensures Substituted(FillFrom(pieces, args, k, 0), args, k) == Filled(pieces, args)
    decreases |args| - k
  {
    if k < |args| {
      FillStep(pieces, args, k, 0);
      SubstituteFrom(pieces, args, k + 1);
    }
  }

  /** Placeholders `{0}` .. `{n-1}` in order, in text and arguments free of
    * `{`, are each replaced by their argument, and the text around them is
    * kept. */
  lemma SubstituteTemplate(pieces: seq<string>, args: seq<string>)
    requires PlainTemplate(pieces, args)
    ensures Substituted(Template(pieces, args), args, 0) == Filled(pieces, args)
  {
    SubstituteFrom(pieces, args, 0);
  }

  lemma SmallPlaceholders()
    ensures Placeholder(0) == "{0}" && Placeholder(1) == "{1}"
  {
  }

  lemma ExampleTemplate()
    ensures Template(["Hello ", ", you have ", " messages"], ["Alice", "5"]) == "Hello {0}, you have {1} messages"
  {
    SmallPlaceholders();
  }

  lemma ExampleFilled()
    ensures Filled(["Hello ", ", you have ", " messages"], ["Alice", "5"]) == "Hello Alice, you have 5 messages"
  {
    var pieces, args := ["Hello ", ", you have ", " messages"], ["Alice", "5"];
    assert "Hello " + "Alice" + ", you have 5 messages" == "Hello Alice, you have 5 messages";
    assert FillFrom(pieces, args, 2, 0) == "Hello " + "Alice" + ", you have 5 messages" by {
      ExampleFilledTail();
      assert Slot(args, 2, 0) == "Alice";
    }
  }

  /** The example from its second piece on. */
  lemma ExampleFilledTail()
    ensures FillFrom(["Hello ", ", you have ", " messages"], ["Alice", "5"], 2, 1) == ", you have 5 messages"
  {
    var pieces, args := ["Hello ", ", you have ", " messages"], ["Alice", "5"];
    assert FillFrom(pieces, args, 2, 2) == " messages";
    assert Slot(args, 2, 1) == "5";
  }

  /** `Hello {0}, you have {1} messages` with `Alice` and `5`. */
  lemma SubstituteExample()
    ensures Substituted("Hello {0}, you have {1} messages", ["Alice", "5"], 0)
              == "Hello Alice, you have 5 messages"
  {
    ExampleTemplate();
    ExampleFilled();
    SubstituteTemplate(["Hello ", ", you have ", " messages"], ["Alice", "5"]);
  }

  // ---------------------------------------------------------------------
  // Encodings

  const CONVERSION_NOT_IMPLEMENTED: string := "Character encoding conversion not fully implemented"

  /** `convert_encoding`: the text is returned unchanged, except that
    * non-ASCII text bound for an encoding other than UTF-8 is refused;
    * encoding names are compared after upper-casing. */
  function ConvertEncoding(text: string, fromEncoding: string, toEncoding: string): (r: Result<string>)
    ensures r.Success? ==> r.value == text
    ensures ToAsciiUpper(fromEncoding) == ToAsciiUpper(toEncoding) ==> r == Success(text)
    ensures r.Failure? <==>
              ToAsciiUpper(fromEncoding) != ToAsciiUpper(toEncoding) && !IsAscii(text) && ToAsciiUpper(toEncoding) != "UTF-8"
    ensures r.Failure? ==> r.error == CONVERSION_NOT_IMPLEMENTED
  {
    if ToAsciiUpper(fromEncoding) == ToAsciiUpper(toEncoding) then Success(text)
    else if !IsAscii(text) && ToAsciiUpper(toEncoding) != "UTF-8" then Failure(CONVERSION_NOT_IMPLEMENTED)
    else Success(text)
  }

  /** Names that differ only in case denote the same encoding, so the text
    * passes unchanged. */
  lemma ConvertEncodingSameName(text: string, fromEncoding: string, toEncoding: string)
    requires EqIgnoreAsciiCase(fromEncoding, toEncoding)
    ensures ConvertEncoding(text, fromEncoding, toEncoding) == Success(text)
  {
    EqIgnoreAsciiCaseUpper(fromEncoding, toEncoding);
  }
}
