# AzizkaDotNetI18n translator, modelled in Dafny

AzizkaDotNetI18n is an in-memory translation engine. A `Translator` holds three things:

- optional translation data (`DataOptions`), made of a main table and an optional list of context overlays (`ContextOptions`);
- a global context, a string-to-string map;
- an optional pluralisation extension.

`Translate(text, params object[])` works in two steps. First it sorts its first three arguments into a count, a formatting dictionary and a context dictionary. Then it resolves the text in this order:

1. the table of the first overlay whose `Matches` all hold in the context;
2. the main table;
3. the original text.

A table value is one of:

- a string, used only when there is no count;
- a list of `[low, high, text]` rule triples, used only with a count;
- a bag dictionary, handed to the extension.

A template taken from a rule triple or from the extension gets two count substitutions: `-%n` is replaced by the negated count, then `%n` by the count. The original text, used when no table has a translation or when a bag is found without an extension, gets only the `%n` substitution, so its `-%n` keeps the minus sign. In every case each `%{key}` of the formatting dictionary is then replaced, in enumeration order.

The model is organised in these modules:

| module | file | contents |
|---|---|---|
| `Common` | `common.dfy` | `null` as `Option`, the C# `int` range with its wrap-around negation, and `Dictionary<string, string>` as an ordered sequence of entries with distinct keys |
| `Text` | `text.dfy` | ordinal `String.Replace` as `ReplaceAll`, and `"" + n` as `IntToString` with its parse-back |
| `Options` | `options.dfy` | `DataOptions` and `ContextOptions` as datatypes, and the `object` values they hold (`Value`, `Element`) |
| `Substitution` | `substitution.dfy` | `ApplyNumbers`, and `ApplyFormatting` as a loop proved against the function `FormatText` |
| `Resolution` | `resolution.dfy` | the rest of the resolution, described below |
| `I18n` | `translator.dfy` | the argument routing of `Translate`, the merge performed by `Add`, and the `Translator` class with its three fields and its mutators |
| `Scenarios` | `scenarios.dfy` | the repository's unit-test scenarios, proved from the model for whole ranges of counts and names, plus a session driven through the class's methods |

`Resolution` holds:

- `FindTranslation`, `GetContextData`, `UseOriginalText` and `TranslateText`, as functions of the translator's state and a call's arguments;
- the two search loops of the source as methods proved equal to those functions.

## Model

| member | source | states |
|---|---|---|
| Common.Negate | AzizkaDotNetI18n/Translator.cs:242 | `-num` on a 32-bit `int` is congruent to the negation modulo 2^32, and is the exact negation except for `int.MinValue` |
| Common.NegateIsUnique | AzizkaDotNetI18n/Translator.cs:242 | only one 32-bit value is congruent to `-n`, so the wrap-around result is determined |
| Common.ToMap | AzizkaDotNetI18n/Translator.cs:97-99 | a context dictionary's lookup view holds exactly its keys, each with its entry's value |
| Text.ReplaceAll | AzizkaDotNetI18n/Translator.cs:242-244 | a replacement no longer than the pattern never lengthens the string, and one no shorter never shortens it |
| Text.LacksInnerMeansAbsent | AzizkaDotNetI18n/Translator.cs:242 | a string lacking any one character of the pattern (the `%` of `-%n`, say) is left unchanged by `Replace` |
| Text.ReplaceAllAbsent | AzizkaDotNetI18n/Translator.cs:243 | `Replace` leaves a string in which the pattern never occurs unchanged |
| Text.ReplaceAllBySelf | AzizkaDotNetI18n/Translator.cs:243 | replacing a pattern by itself is the identity |
| Text.LacksFirstMeansAbsent | AzizkaDotNetI18n/Translator.cs:243 | a string without the pattern's first character holds no occurrence |
| Text.ReplaceAllFreePrefix | AzizkaDotNetI18n/Translator.cs:243 | a prefix without the pattern's first character is copied through `Replace` unchanged |
| Text.ReplaceAllSingle | AzizkaDotNetI18n/Translator.cs:243-244 | one occurrence between pattern-free text is replaced, and nothing else changes |
| Text.Digits | AzizkaDotNetI18n/Translator.cs:243 | the decimal text of a natural number is all digits, with no leading zero |
| Text.IntToString | AzizkaDotNetI18n/Translator.cs:243-244 | `"" + n` is non-empty, made of digits and a minus sign, and starts with `-` exactly when `n` is negative |
| Text.ParseDigitsOfDigits | AzizkaDotNetI18n/Translator.cs:243 | reading back the decimal digits of `n` gives `n` |
| Text.IntToStringRoundTrip | AzizkaDotNetI18n/Translator.cs:243-244 | `"" + n` parses back to `n` for every integer |
| Text.IntToStringInjective | AzizkaDotNetI18n/Translator.cs:243-244 | different counts produce different texts |
| Substitution.IntToStringLacksPercent | AzizkaDotNetI18n/Translator.cs:243-244 | the count's text never introduces a new `%n` |
| Substitution.NegatedTokenFreePrefix | AzizkaDotNetI18n/Translator.cs:242 | a `%`-free prefix, even one ending in `-`, is copied through the `-%n` replacement unchanged |
| Substitution.ApplyNumbersNegatedToken | AzizkaDotNetI18n/Translator.cs:238-247 | `-%n` between `%`-free text (a `-` next to it included) is replaced as a whole by the negated count, and its `%n` is not replaced a second time |
| Substitution.ApplyNumbersToken | AzizkaDotNetI18n/Translator.cs:238-247 | a lone `%n` is replaced by the count |
| Substitution.ApplyNumbers | AzizkaDotNetI18n/Translator.cs:238-247 | without a count the template is returned as it is, and so is a template without `%` under any count |
| Substitution.Placeholder | AzizkaDotNetI18n/Translator.cs:255 | the token for key `k` is `%{k}`: three characters longer than the key, starting with `%` |
| Substitution.ApplyFormatting | AzizkaDotNetI18n/Translator.cs:249-261 | the loop's result is the sequential replacement `FormatText`: identity without a dictionary, otherwise every entry in enumeration order |
| Substitution.FormatEntriesAppend | AzizkaDotNetI18n/Translator.cs:253-257 | formatting with `e1 + e2` is formatting with `e1` and then with `e2` |
| Substitution.FormatEntries | AzizkaDotNetI18n/Translator.cs:253-257 | a template without `%` holds no placeholder and is left unchanged by any list of entries |
| Substitution.FormatText | AzizkaDotNetI18n/Translator.cs:249-261 | a `null` or empty dictionary leaves the template as it is, and so does any dictionary on a template without `%` |
| Substitution.FormatSingle | AzizkaDotNetI18n/Translator.cs:249-261 | a single placeholder in `%`-free text is filled with its value |
| Substitution.FormattingIsOrderSensitive | AzizkaDotNetI18n/Translator.cs:253-257 | a value containing a later placeholder is filled again, so entry order changes the result |
| Resolution.FirstRule | AzizkaDotNetI18n/Translator.cs:213-231 | the result is absent exactly when no triple matches; otherwise it is the text of a matching triple with no matching triple before it |
| Resolution.SearchRules | AzizkaDotNetI18n/Translator.cs:213-231 | the `foreach` over the triples with its early `return` yields `FirstRule` |
| Resolution.FindTranslation | AzizkaDotNetI18n/Translator.cs:178-236 | a missing key and every failure give `("", false)`; a bag is found first (extension template or original text); a string is found only without a count and is formatted; a rule list is found exactly when there is a count and some triple matches, and then yields the first match with count and formatting applied; any other value is not found |
| Resolution.MatchesContext | AzizkaDotNetI18n/Translator.cs:272-279 | an overlay matches exactly when its required entries form a sub-map of the context: writing them over the context changes nothing |
| Resolution.FirstMatching | AzizkaDotNetI18n/Translator.cs:270-284 | the result is absent exactly when no overlay matches; otherwise it is a matching overlay with no matching overlay before it |
| Resolution.OverlayMatches | AzizkaDotNetI18n/Translator.cs:272-279 | the inner loop's `equal`, with its early `break`, is true exactly when every required entry is in the context with the same value |
| Resolution.SearchOverlays | AzizkaDotNetI18n/Translator.cs:263-285 | the outer loop returns `GetContextData`: nothing for a `null` list, else the first accepted overlay |
| Resolution.GetContextData | AzizkaDotNetI18n/Translator.cs:263-285 | a `null` list gives `null`; a result is one of the overlays and matches the context; `null` means no overlay matches |
| Resolution.Low | AzizkaDotNetI18n/Translator.cs:215 | the lower bound is present exactly when the triple has a first element that is an `int`, and is that `int`; a short triple, `null` or any other type means no bound |
| Resolution.High | AzizkaDotNetI18n/Translator.cs:216 | the upper bound is present exactly when the triple has a second element that is an `int`, and is that `int` |
| Resolution.RuleText | AzizkaDotNetI18n/Translator.cs:217 | the text is the third element when it is a string, and `""` for a short triple, `null` or any other type |
| Resolution.RuleMatches | AzizkaDotNetI18n/Translator.cs:219-225 | with a count, a triple matches exactly when it has at least one `int` bound and the count lies within each bound it has; without a count, exactly when it has neither bound |
| Resolution.OpenRuleNeverMatchesCount | AzizkaDotNetI18n/Translator.cs:219-226 | a triple with neither bound never matches a count |
| Resolution.RulesNeedCount | AzizkaDotNetI18n/Translator.cs:204-211 | a rule list gives `("", false)` when there is no count |
| Resolution.FirstRuleIsEarliest | AzizkaDotNetI18n/Translator.cs:213-231 | a matching triple is used exactly when no earlier triple matches |
| Resolution.FirstMatchingIsEarliest | AzizkaDotNetI18n/Translator.cs:270-281 | a matching overlay is chosen exactly when no earlier overlay matches, so earlier overlays shadow later ones |
| Resolution.MatchesContextWithExtraEntries | AzizkaDotNetI18n/Translator.cs:274-279 | extra context entries never prevent a match |
| Resolution.NewOverlayMatchesEveryContext | AzizkaDotNetI18n/Options/ContextOptions.cs:5-6 | a fresh overlay's empty `Matches` matches every context, and its empty table finds no translation, so data whose only overlay is fresh translates exactly as data without overlays |
| Resolution.NewDataTranslatesNothing | AzizkaDotNetI18n/Options/DataOptions.cs:5-6 | fresh data has a `null` overlay list, so no overlay is ever chosen, and every text falls back to the original |
| Resolution.EmptyOverlayListSelectsNothing | AzizkaDotNetI18n/Translator.cs:265-284 | an empty overlay list and a `null` one both choose no overlay |
| Resolution.UseOriginalText | AzizkaDotNetI18n/Translator.cs:287-295 | without a count only the formatting applies, and a text without `%` comes back exactly as given under any count and dictionary |
| Resolution.TranslateText | AzizkaDotNetI18n/Translator.cs:144-176 | without data the original text; with data the chosen overlay's translation if it finds one, then the main table's, then the original text |
| Resolution.NoDataUsesOriginalText | AzizkaDotNetI18n/Translator.cs:150-153 | without data the result is the original text with count and formatting applied |
| Resolution.OverlayComesFirst | AzizkaDotNetI18n/Translator.cs:155-163 | a translation found in the chosen overlay wins over the main table |
| Resolution.OverlayStringIsUsed | AzizkaDotNetI18n/Translator.cs:155-163 | without a count, a string entry in the chosen overlay is the formatted result |
| Resolution.OverlayWithoutEntryDefersToMain | AzizkaDotNetI18n/Translator.cs:160-168 | when the chosen overlay has no entry for the text, the result is what the main table alone gives |
| Resolution.MainRuleIsUsed | AzizkaDotNetI18n/Translator.cs:165-168 | with a count and no overlay, the main table's first matching triple gives the result, with count and formatting applied |
| Resolution.MissingKeyUsesOriginalText | AzizkaDotNetI18n/Translator.cs:170-173 | a text that no table holds comes back as the original text: a missing key never fails |
| Resolution.OverlayBagWithoutExtensionStops | AzizkaDotNetI18n/Translator.cs:188-201 | a bag in the chosen overlay counts as found even without an extension, so the main table is not consulted |
| Resolution.ExtensionTemplateIsSubstituted | AzizkaDotNetI18n/Translator.cs:190-196 | the extension's template gets the count and then the formatting applied |
| Resolution.OriginalTextFillsCount | AzizkaDotNetI18n/Translator.cs:287-295 | the fallback fills a lone `%n` with the count |
| Resolution.OriginalTextDoesNotNegate | AzizkaDotNetI18n/Translator.cs:287-295 | the fallback keeps the minus of `-%n`, where `ApplyNumbers` would negate the count |
| I18n.RouteArguments | AzizkaDotNetI18n/Translator.cs:68-142 | the full routing table: a dictionary first is the formatting, with a dictionary second as the context and no count; an `int` first is the count, with a dictionary second as the formatting and a dictionary third as the context; otherwise an `int` second is the count, with a dictionary third as the formatting and the global context; otherwise no count, a dictionary second as the formatting and a dictionary third as the context |
| I18n.EncodeCall | AzizkaDotNetI18n/Translator.cs:68-142 | every call can be written with at most three positional arguments |
| I18n.RoutingRoundTrip | AzizkaDotNetI18n/Translator.cs:68-142 | every combination of count, formatting and context written positionally is routed back to itself, with an absent context meaning the global one |
| I18n.RoutingCountSecond | AzizkaDotNetI18n/Translator.cs:116-126 | a count in the second position, after an unrecognised first argument, is routed back with its formatting, and the context then stays the global one |
| I18n.RoutingIgnoresExtraArguments | AzizkaDotNetI18n/Translator.cs:76-90 | arguments after the third are ignored |
| I18n.RoutingIgnoresTrailingOther | AzizkaDotNetI18n/Translator.cs:93-139 | an unrecognised trailing argument has the same effect as no argument |
| I18n.Merge | AzizkaDotNetI18n/Translator.cs:18-34 | the merged table holds every key of both tables, with last write wins; the overlays are appended in order; a `null` or empty incoming list leaves the stored list as it was, possibly still `null` |
| I18n.MergeIsAssociative | AzizkaDotNetI18n/Translator.cs:18-34 | adding `b` then `c` stores what adding `b` and `c` merged in one step stores |
| I18n.Translator.constructor | AzizkaDotNetI18n/Translator.cs:7-10 | a new translator has no data, an empty global context and no extension |
| I18n.Translator.Add | AzizkaDotNetI18n/Translator.cs:12-35 | the first data is adopted as it is; later data is merged in by the key loop and the overlay append; context and extension unchanged |
| I18n.Translator.SetContext | AzizkaDotNetI18n/Translator.cs:37-40 | exactly one global context entry is set; nothing else changes |
| I18n.Translator.ClearContext | AzizkaDotNetI18n/Translator.cs:42-45 | exactly one entry is removed, with no effect if it is absent; nothing else changes |
| I18n.Translator.Extend | AzizkaDotNetI18n/Translator.cs:47-50 | the new extension replaces any earlier one |
| I18n.Translator.ResetData | AzizkaDotNetI18n/Translator.cs:52-55 | the data becomes `null`; nothing else changes |
| I18n.Translator.ResetContext | AzizkaDotNetI18n/Translator.cs:57-60 | the global context becomes empty; nothing else changes |
| I18n.Translator.Reset | AzizkaDotNetI18n/Translator.cs:62-66 | data and context are both reset and the extension is kept |
| I18n.Translator.Translate | AzizkaDotNetI18n/Translator.cs:68-176 | the result is `TranslateText` on the current state, applied to the routed count, formatting and context |
| Scenarios.HelloScenario | AzizkaDotNetI18n.Tests/TranslatorTests.cs:9-25 | a string entry is returned as it is for a call without arguments |
| Scenarios.CommentsZero | AzizkaDotNetI18n.Tests/TranslatorTests.cs:56 | 0 gives "0 comments" |
| Scenarios.CommentsOne | AzizkaDotNetI18n.Tests/TranslatorTests.cs:57 | 1 gives "1 comment" |
| Scenarios.CommentsFromTwo | AzizkaDotNetI18n.Tests/TranslatorTests.cs:47-59 | every count from 2 up gives "n comments" from the open-ended rule |
| Scenarios.CommentsNegative | AzizkaDotNetI18n.Tests/TranslatorTests.cs:47-49 | a negative count matches no rule and falls back to the key, with the count filled in |
| Scenarios.CommentsTwo | AzizkaDotNetI18n.Tests/TranslatorTests.cs:58 | 2 gives "2 comments" |
| Scenarios.CommentsTen | AzizkaDotNetI18n.Tests/TranslatorTests.cs:59 | 10 gives "10 comments" |
| Scenarios.DueAgo | AzizkaDotNetI18n.Tests/TranslatorTests.cs:81 | every count up to -2 gives "Due m days ago", where m is the wrap-around negation |
| Scenarios.DueYesterday | AzizkaDotNetI18n.Tests/TranslatorTests.cs:93 | -1 gives "Due Yesterday" |
| Scenarios.DueToday | AzizkaDotNetI18n.Tests/TranslatorTests.cs:94 | 0 gives "Due Today" |
| Scenarios.DueTomorrow | AzizkaDotNetI18n.Tests/TranslatorTests.cs:95 | 1 gives "Due Tomorrow" |
| Scenarios.DueIn | AzizkaDotNetI18n.Tests/TranslatorTests.cs:85 | every count from 2 up gives "Due in n days" |
| Scenarios.DueTenAgo | AzizkaDotNetI18n.Tests/TranslatorTests.cs:91 | -10 gives "Due 10 days ago" |
| Scenarios.DueTwoAgo | AzizkaDotNetI18n.Tests/TranslatorTests.cs:92 | -2 gives "Due 2 days ago" |
| Scenarios.DueInTwo | AzizkaDotNetI18n.Tests/TranslatorTests.cs:96 | 2 gives "Due in 2 days" |
| Scenarios.DueInTen | AzizkaDotNetI18n.Tests/TranslatorTests.cs:97 | 10 gives "Due in 10 days" |
| Scenarios.WelcomeScenario | AzizkaDotNetI18n.Tests/TranslatorTests.cs:101-118 | without data, `Welcome %{name}` is formatted in place for every name |
| Scenarios.ProfileOverlays | AzizkaDotNetI18n.Tests/TranslatorTests.cs:130-158 | each gender chooses its own overlay, and any other gender chooses none |
| Scenarios.ProfileMale | AzizkaDotNetI18n.Tests/TranslatorTests.cs:160-175 | a `gender = male` context passed after the formatting gives "name updated his profile" for every name, whatever extension is registered |
| Scenarios.ProfileFemale | AzizkaDotNetI18n.Tests/TranslatorTests.cs:177-191 | a `gender = female` context gives "name updated her profile" for every name, whatever extension is registered |
| Scenarios.ProfileOtherGender | AzizkaDotNetI18n/Translator.cs:160-173 | any other gender falls back to the key with the name filled in |
| Scenarios.SessionMerges | AzizkaDotNetI18n/Translator.cs:12-35 | three `Add` calls: the later greeting overwrites the earlier one and the overlays are kept |
| Scenarios.TranslatorSession | AzizkaDotNetI18n/Translator.cs:12-176 | a translator driven through `Add`, `Extend`, `SetContext` and `Reset`: it translates the greeting, then with a global context it chooses the female overlay, and after `Reset` it falls back to the original text |

## Left out

- `Translator.Create`, used by the tests, is not part of this model. The scenarios start from the data directly.
- On the first `Add`, the caller's `DataOptions` object is adopted by reference, so later merges also change the caller's object. The model uses value semantics, and that aliasing is not captured.
- The extension is a total, pure Dafny function value. Exceptions and side effects inside the user's delegate are not modelled.
- The Russian plural-key lambda and the xUnit harness of the test project are left out. The extension is treated as an arbitrary function.
- The plural-with-contexts test (AzizkaDotNetI18n.Tests/TranslatorTests.cs:195-286) is not instantiated. It needs two placeholders and a count in one template. The general lemmas `Resolution.OverlayComesFirst`, `Resolution.FirstRuleIsEarliest` and `Substitution.FormatEntriesAppend` cover its parts.
- Runtime `is` type tests on `object` become the datatypes `Value`, `Element` and `I18n.Arg`. `Value.Other`, `Element.OtherE` and `I18n.OtherArg` stand for every type the code does not recognise. `Element` also has `NullE` for a `null` element, which reads as a missing bound or the empty text. A `null` argument and a position past the end of the argument array are both `OtherArg`.
- No `null` is modelled where the source takes a reference, because the model's values cannot be `null`. Every behaviour that depends on one is left out, throwing or not. The cases include:
  - a `null` triple in a rule list, which throws (AzizkaDotNetI18n/Translator.cs:215);
  - a `null` overlay or `null` `Matches`, which throws (AzizkaDotNetI18n/Translator.cs:274);
  - a `null` table, which throws (AzizkaDotNetI18n/Translator.cs:20, 184);
  - a `null` text once data is loaded, which throws (AzizkaDotNetI18n/Translator.cs:184);
  - a `null` key to `SetContext` or `ClearContext`, which throws (AzizkaDotNetI18n/Translator.cs:39, 44);
  - a `null` `params` array, which throws (AzizkaDotNetI18n/Translator.cs:76);
  - `Add(null)`, which does nothing on a translator without data and throws once data is present (AzizkaDotNetI18n/Translator.cs:14-16, 20);
  - an extension that returns `null`. It throws at AzizkaDotNetI18n/Translator.cs:242 when there is a count, and at AzizkaDotNetI18n/Translator.cs:256 when the formatting has an entry. Otherwise `FindTranslation` reports `(null, true)` and `Translate` returns `null` (AzizkaDotNetI18n/Translator.cs:196).
  - a `null` formatting value, which deletes its placeholder (AzizkaDotNetI18n/Translator.cs:256);
  - `Extend(null)`, which unregisters the extension (AzizkaDotNetI18n/Translator.cs:49); the model's `Extend` always registers one.
- `"" + num` uses the invariant culture's decimal digits. Culture-specific number formatting is not modelled.
- A `Dictionary<string, string>` is modelled as an ordered sequence of entries with distinct keys, in enumeration order. Any order is allowed. The order .NET actually produces is not modelled.
- A bag, the `Dictionary<string, object>` handed to the extension (AzizkaDotNetI18n/Translator.cs:192), is an unordered `map<string, Value>`. An extension in the model therefore cannot observe the bag's enumeration order. Nor can it observe what an entry of an unrecognised type holds: a boxed `int` is `Value.Other`, so `ToString()` on it cannot be modelled. No property proved here depends on either.
- Thread safety is not modelled: the class does no locking.
- One plausible reading of the rule format is that a triple with neither bound catches an absent count. The code's match condition does have such a disjunct (AzizkaDotNetI18n/Translator.cs:220). But the code never reaches it, because a rule list is searched only when a count is given (AzizkaDotNetI18n/Translator.cs:204-211). The model keeps the disjunct exactly as written, and `Resolution.RulesNeedCount` states the consequence: without a count, a rule list is never a translation.
