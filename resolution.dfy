/** How `Translator` resolves one text: the overlay chosen by the context,
    the lookup in a table for each value shape, and the fallback to the
    original text. Each operation is a function of the translator's state
    (`data`, `extension`) and the call's arguments. */
module Resolution {
  import opened Common
  import opened Text
  import opened Options
  import opened Substitution

  /** The extension `Func<string, int?, Dictionary<string, string>?,
      Dictionary<string, object>, string>`: it receives the source text, the
      count, the formatting dictionary and the bag, and returns a template. */
  type Extension = (string, Option<Int32>, Option<Dict>, map<string, Value>) -> string

  /** The `(string result, bool ok)` pair `FindTranslation` returns. */
  datatype Lookup = Lookup(result: string, ok: bool)

  const NotFound: Lookup := Lookup("", false)

  /** The lower bound of a triple: its first element when that is an `int`. */
  function Low(t: seq<Element>): (r: Option<Int32>)
    // a short triple, a `null` and any non-`int` element all mean "no lower bound"
    ensures r.Some? <==> |t| > 0 && t[0].IntE?
    ensures r.Some? ==> t[0] == IntE(r.value)
  {
    if |t| > 0 && t[0].IntE? then Some(t[0].n) else None
  }

  /** The upper bound of a triple: its second element when that is an `int`. */
  function High(t: seq<Element>): (r: Option<Int32>)
    // a short triple, a `null` and any non-`int` element all mean "no upper bound"
    ensures r.Some? <==> |t| > 1 && t[1].IntE?
    ensures r.Some? ==> t[1] == IntE(r.value)
  {
    if |t| > 1 && t[1].IntE? then Some(t[1].n) else None
  }

  /** The text of a triple: its third element when that is a string, else "". */
  function RuleText(t: seq<Element>): (r: string)
    // a short triple, a `null` and any non-string element all give the empty text
    ensures |t| > 2 && t[2].StrE? ==> r == t[2].s
    ensures !(|t| > 2 && t[2].StrE?) ==> r == ""
  {
    if |t| > 2 && t[2].StrE? then t[2].s else ""
  }

  /** The condition a triple is tested with, including its first disjunct
      for an absent count (which the caller never reaches: rule lists are
      only searched with a count). */
  predicate RuleMatches(t: seq<Element>, num: Option<Int32>)
    // read as an interval: with a count, a triple matches exactly when it has at
    // least one bound and the count respects each bound it has
    ensures num.Some? ==>
      (RuleMatches(t, num) <==>
         && (Low(t).Some? || High(t).Some?)
         && (Low(t).Some? ==> Low(t).value <= num.value)
         && (High(t).Some? ==> num.value <= High(t).value))
    // without a count, exactly the triples with neither bound
    ensures num.None? ==> (RuleMatches(t, num) <==> Low(t).None? && High(t).None?)
  {
    var low, high := Low(t), High(t);
    || (num.None? && low.None? && high.None?)
    || (num.Some? && (|| (low.Some? && num.value >= low.value && (high.None? || num.value <= high.value))
                      || (low.None? && high.Some? && num.value <= high.value)))
  }

  /** The first triple in list order that matches, by its text. */
  function FirstRule(triples: seq<seq<Element>>, num: Option<Int32>): (r: Option<string>)
    ensures r.None? <==> forall i :: 0 <= i < |triples| ==> !RuleMatches(triples[i], num)
    ensures r.Some? ==> exists i :: 0 <= i < |triples| && RuleMatches(triples[i], num)
                                 && r.value == RuleText(triples[i])
                                 && forall j :: 0 <= j < i ==> !RuleMatches(triples[j], num)
    decreases |triples|
  {
    if triples == [] then None
    else if RuleMatches(triples[0], num) then Some(RuleText(triples[0]))
    else
      var r := FirstRule(triples[1..], num);
      assert forall i :: 0 < i < |triples| ==> triples[i] == triples[1..][i - 1];
      assert r.Some? ==> exists i :: 0 < i < |triples| && RuleMatches(triples[i], num)
                                  && r.value == RuleText(triples[i])
                                  && forall j :: 0 <= j < i ==> !RuleMatches(triples[j], num);
      r
  }

  /** One step of the search from position `i`. */
  lemma FirstRuleFrom(triples: seq<seq<Element>>, num: Option<Int32>, i: nat)
    requires i < |triples|
    ensures FirstRule(triples[i..], num)
         == if RuleMatches(triples[i], num) then Some(RuleText(triples[i])) else FirstRule(triples[i + 1..], num)
  {
    assert triples[i..][0] == triples[i] && triples[i..][1..] == triples[i + 1..];
  }

  /** The `foreach` over the triples in `FindTranslation`: the first
      matching triple in list order returns its text. */
  method SearchRules(triples: seq<seq<Element>>, num: Option<Int32>) returns (r: Option<string>)
    ensures r == FirstRule(triples, num)
  {
    var i := 0;
    while i < |triples|
      invariant 0 <= i <= |triples|
      invariant FirstRule(triples[i..], num) == FirstRule(triples, num)
    {
      FirstRuleFrom(triples, num, i);
      if RuleMatches(triples[i], num) {
        return Some(RuleText(triples[i]));
      }
      i := i + 1;
    }
    assert triples[i..] == [];
    return None;
  }

  /** `UseOriginalText`: the source text itself, with each `%n` replaced by
      the count (there is no `-%n` negation here), then formatted. */
  function UseOriginalText(text: string, num: Option<Int32>, formatting: Option<Dict>): (r: string)
    // without a count only the formatting applies
    ensures num.None? ==> r == FormatText(text, formatting)
    // a text without `%` comes back exactly as it was given
    ensures Lacks(text, '%') ==> r == text
  {
    if num.None? then FormatText(text, formatting)
    else
      LacksInnerMeansAbsent(text, NumberToken, 0);
      FormatText(ReplaceAll(text, NumberToken, IntToString(num.value)), formatting)
  }

  /** `FindTranslation`: looks `text` up in one table and resolves the value
      by its shape. */
  function FindTranslation(extension: Option<Extension>, text: string, num: Option<Int32>,
                           formatting: Option<Dict>, table: Table): (r: Lookup)
    // a missing key, and every failure, reports ("", false)
    ensures text !in table ==> r == NotFound
    ensures !r.ok ==> r == NotFound
    // a bag is tested first and always reports success
    ensures text in table && table[text].Bag? ==>
      r.ok && r.result == (if extension.Some?
                           then FormatText(ApplyNumbers(extension.value(text, num, formatting, table[text].entries), num), formatting)
                           else UseOriginalText(text, num, formatting))
    // a string is found only without a count; it is formatted but the count is not applied
    ensures text in table && table[text].Str? ==>
      r.ok == num.None? && (r.ok ==> r.result == FormatText(table[text].s, formatting))
    // a rule list is searched only with a count; the first matching triple is used
    ensures text in table && table[text].Rules? ==>
      (r.ok <==> num.Some? && exists i :: 0 <= i < |table[text].triples| && RuleMatches(table[text].triples[i], num))
    ensures text in table && table[text].Rules? && r.ok ==>
      r.result == FormatText(ApplyNumbers(FirstRule(table[text].triples, num).value, num), formatting)
    // any other value is not a translation
    ensures text in table && table[text].Other? ==> r == NotFound
  {
    if text !in table then NotFound
    else match table[text]
      case Bag(entries) =>
        if extension.Some? then
          var template := extension.value(text, num, formatting, entries);
          Lookup(FormatText(ApplyNumbers(template, num), formatting), true)
        else Lookup(UseOriginalText(text, num, formatting), true)
      case Str(s) =>
        if num.None? then Lookup(FormatText(s, formatting), true) else NotFound
      case Rules(triples) =>
        if num.None? then NotFound
        else (match FirstRule(triples, num)
              case Some(v) => Lookup(FormatText(ApplyNumbers(v, num), formatting), true)
              case None => NotFound)
      case Other => NotFound
  }

  /** Every entry the overlay requires is in the context with an equal value. */
  predicate MatchesContext(overlay: ContextOptions, context: map<string, string>)
    // the required entries form a sub-map of the context: writing them over it changes nothing
    ensures MatchesContext(overlay, context) <==> context + overlay.Matches == context
  {
    forall k :: k in overlay.Matches ==> k in context && context[k] == overlay.Matches[k]
  }

  /** The first overlay in list order that matches the context. */
  function FirstMatching(overlays: seq<ContextOptions>, context: map<string, string>): (r: Option<ContextOptions>)
    ensures r.None? <==> forall i :: 0 <= i < |overlays| ==> !MatchesContext(overlays[i], context)
    ensures r.Some? ==> exists i :: 0 <= i < |overlays| && overlays[i] == r.value
                                 && MatchesContext(overlays[i], context)
                                 && forall j :: 0 <= j < i ==> !MatchesContext(overlays[j], context)
    decreases |overlays|
  {
    if overlays == [] then None
    else if MatchesContext(overlays[0], context) then Some(overlays[0])
    else
      var r := FirstMatching(overlays[1..], context);
      assert forall i :: 0 < i < |overlays| ==> overlays[i] == overlays[1..][i - 1];
      assert r.Some? ==> exists i :: 0 < i < |overlays| && overlays[i] == r.value
                                  && MatchesContext(overlays[i], context)
                                  && forall j :: 0 <= j < i ==> !MatchesContext(overlays[j], context);
      r
  }

  /** The inner `foreach` of `GetContextData`: `equal` is cleared by the
      first required entry the context lacks or holds differently, and the
      loop stops there. */
  method OverlayMatches(overlay: ContextOptions, context: map<string, string>) returns (equal: bool)
    ensures equal == MatchesContext(overlay, context)
  {
    equal := true;
    var pending := overlay.Matches.Keys;
    while pending != {}
      invariant pending <= overlay.Matches.Keys
      invariant equal <==> forall k :: k in overlay.Matches.Keys - pending ==> k in context && context[k] == overlay.Matches[k]
      decreases pending
    {
      var k :| k in pending;
      equal := equal && k in context && overlay.Matches[k] == context[k];
      pending := pending - {k};
      if !equal {
        break;
      }
    }
  }

  /** One step of the search from position `i`. */
  lemma FirstMatchingFrom(overlays: seq<ContextOptions>, context: map<string, string>, i: nat)
    requires i < |overlays|
    ensures FirstMatching(overlays[i..], context)
         == if MatchesContext(overlays[i], context) then Some(overlays[i]) else FirstMatching(overlays[i + 1..], context)
  {
    assert overlays[i..][0] == overlays[i] && overlays[i..][1..] == overlays[i + 1..];
  }

  /** The outer loop of `GetContextData`: the first overlay the inner loop
      accepts is returned. */
  method SearchOverlays(data: DataOptions, context: map<string, string>) returns (r: Option<ContextOptions>)
    ensures r == GetContextData(data, context)
  {
    if data.Contexts.None? {
      return None;
    }
    var overlays := data.Contexts.value;
    var i := 0;
    while i < |overlays|
      invariant 0 <= i <= |overlays|
      invariant FirstMatching(overlays[i..], context) == FirstMatching(overlays, context)
    {
      FirstMatchingFrom(overlays, context, i);
      var equal := OverlayMatches(overlays[i], context);
      if equal {
        return Some(overlays[i]);
      }
      i := i + 1;
    }
    assert overlays[i..] == [];
    return None;
  }

  /** `GetContextData`: no overlay for a `null` list, else the first overlay
      that matches the context. */
  function GetContextData(data: DataOptions, context: map<string, string>): (r: Option<ContextOptions>)
    ensures data.Contexts.None? ==> r.None?
    ensures r.Some? ==> r.value in Overlays(data) && MatchesContext(r.value, context)
    ensures r.None? ==> forall i :: 0 <= i < |Overlays(data)| ==> !MatchesContext(Overlays(data)[i], context)
  {
    if data.Contexts.None? then None else FirstMatching(data.Contexts.value, context)
  }

  /** `TranslateText`: without data the original text; otherwise the matched
      overlay's table, then the main table, then the original text. */
  function TranslateText(data: Option<DataOptions>, extension: Option<Extension>, text: string,
                         num: Option<Int32>, formatting: Option<Dict>, context: map<string, string>): (r: string)
    // without data, the original text
    ensures data.None? ==> r == UseOriginalText(text, num, formatting)
    // a translation found in the selected overlay's table is the result
    ensures data.Some? && GetContextData(data.value, context).Some?
            && FindTranslation(extension, text, num, formatting, GetContextData(data.value, context).value.Values).ok
            ==> r == FindTranslation(extension, text, num, formatting, GetContextData(data.value, context).value.Values).result
    // otherwise the main table's translation, and failing that the original text
    ensures data.Some? && (GetContextData(data.value, context).None?
                           || !FindTranslation(extension, text, num, formatting, GetContextData(data.value, context).value.Values).ok)
            ==> r == (if FindTranslation(extension, text, num, formatting, data.value.Values).ok
                      then FindTranslation(extension, text, num, formatting, data.value.Values).result
                      else UseOriginalText(text, num, formatting))
  {
    if data.None? then UseOriginalText(text, num, formatting)
    else
      var overlay := GetContextData(data.value, context);
      var fromOverlay := if overlay.Some? then FindTranslation(extension, text, num, formatting, overlay.value.Values)
                         else NotFound;
      if fromOverlay.ok then fromOverlay.result
      else
        var fromMain := FindTranslation(extension, text, num, formatting, data.value.Values);
        if fromMain.ok then fromMain.result else UseOriginalText(text, num, formatting)
  }

  // ---------------------------------------------------------------------
  // Rules

  /** A triple with neither bound (or bounds that are not `int`) never
      matches a count. */
  lemma OpenRuleNeverMatchesCount(t: seq<Element>, n: Int32)
    requires Low(t).None? && High(t).None?
    ensures !RuleMatches(t, Some(n))
  {
  }

  /** A rule list yields nothing without a count: the open-triple case of
      the match condition is never reached. */
  lemma RulesNeedCount(extension: Option<Extension>, text: string, formatting: Option<Dict>, table: Table)
    requires text in table && table[text].Rules?
    ensures FindTranslation(extension, text, None, formatting, table) == NotFound
  {
  }

  /** Rules earlier in the list shadow later ones: a matching triple is used
      exactly when no triple before it matches. */
  lemma {:induction false} FirstRuleIsEarliest(triples: seq<seq<Element>>, num: Option<Int32>, i: nat)
    requires i < |triples| && RuleMatches(triples[i], num)
    requires forall j :: 0 <= j < i ==> !RuleMatches(triples[j], num)
    ensures FirstRule(triples, num) == Some(RuleText(triples[i]))
    decreases i
  {
    if i > 0 {
      assert !RuleMatches(triples[0], num);
      assert triples[1..][i - 1] == triples[i];
      FirstRuleIsEarliest(triples[1..], num, i - 1);
    }
  }

  // ---------------------------------------------------------------------
  // Overlays

  /** Overlays earlier in the list shadow later ones: a matching overlay is
      selected exactly when no overlay before it matches. */
  lemma {:induction false} FirstMatchingIsEarliest(overlays: seq<ContextOptions>, context: map<string, string>, i: nat)
    requires i < |overlays| && MatchesContext(overlays[i], context)
    requires forall j :: 0 <= j < i ==> !MatchesContext(overlays[j], context)
    ensures FirstMatching(overlays, context) == Some(overlays[i])
    decreases i
  {
    if i > 0 {
      assert !MatchesContext(overlays[0], context);
      assert overlays[1..][i - 1] == overlays[i];
      FirstMatchingIsEarliest(overlays[1..], context, i - 1);
    }
  }

  /** Extra context entries never prevent a match. */
  lemma MatchesContextWithExtraEntries(overlay: ContextOptions, context: map<string, string>, more: map<string, string>)
    requires MatchesContext(overlay, context)
    requires forall k :: k in more ==> k !in overlay.Matches
    ensures MatchesContext(overlay, context + more)
  {
  }

  /** A fresh overlay requires nothing, so it matches every context; with
      its empty table it finds no translation, so selecting it never changes
      a result. */
  lemma NewOverlayMatchesEveryContext(context: map<string, string>, extension: Option<Extension>, text: string,
                                      num: Option<Int32>, formatting: Option<Dict>, values: Table)
    ensures MatchesContext(NewContextOptions, context)
    ensures FindTranslation(extension, text, num, formatting, NewContextOptions.Values) == NotFound
    ensures TranslateText(Some(DataOptions(values, Some([NewContextOptions]))), extension, text, num, formatting, context)
         == TranslateText(Some(DataOptions(values, None)), extension, text, num, formatting, context)
  {
    FirstMatchingIsEarliest([NewContextOptions], context, 0);
  }

  /** Fresh data has no overlay list, so no overlay is ever selected, and
      with its empty main table every text falls back to the original. */
  lemma NewDataTranslatesNothing(extension: Option<Extension>, text: string, num: Option<Int32>,
                                 formatting: Option<Dict>, context: map<string, string>)
    ensures GetContextData(NewDataOptions, context).None?
    ensures TranslateText(Some(NewDataOptions), extension, text, num, formatting, context)
         == UseOriginalText(text, num, formatting)
  {
  }

  /** An empty overlay list selects nothing, just as a `null` one does. */
  lemma EmptyOverlayListSelectsNothing(values: Table, context: map<string, string>)
    ensures GetContextData(DataOptions(values, Some([])), context).None?
    ensures GetContextData(DataOptions(values, None), context).None?
  {
  }

  // ---------------------------------------------------------------------
  // The fallback chain

  /** Without data the original text is used, with the count and the
      formatting applied. */
  lemma NoDataUsesOriginalText(extension: Option<Extension>, text: string, num: Option<Int32>,
                               formatting: Option<Dict>, context: map<string, string>)
    ensures TranslateText(None, extension, text, num, formatting, context) == UseOriginalText(text, num, formatting)
  {
  }

  /** A translation found in the selected overlay wins over the main table. */
  lemma OverlayComesFirst(data: DataOptions, extension: Option<Extension>, text: string, num: Option<Int32>,
                          formatting: Option<Dict>, context: map<string, string>)
    requires GetContextData(data, context).Some?
    requires FindTranslation(extension, text, num, formatting, GetContextData(data, context).value.Values).ok
    ensures TranslateText(Some(data), extension, text, num, formatting, context)
         == FindTranslation(extension, text, num, formatting, GetContextData(data, context).value.Values).result
  {
  }

  /** Without a count, a string entry in the selected overlay is the
      translation, formatted. */
  lemma OverlayStringIsUsed(data: DataOptions, extension: Option<Extension>, text: string,
                            formatting: Option<Dict>, context: map<string, string>, overlay: ContextOptions)
    requires GetContextData(data, context) == Some(overlay)
    requires text in overlay.Values && overlay.Values[text].Str?
    ensures TranslateText(Some(data), extension, text, None, formatting, context)
         == FormatText(overlay.Values[text].s, formatting)
  {
  }

  /** When the selected overlay (if any) has no entry for the text, the
      result is what the main table alone gives: an overlay with an empty
      table, like a fresh one, is transparent. */
  lemma OverlayWithoutEntryDefersToMain(data: DataOptions, extension: Option<Extension>, text: string,
                                        num: Option<Int32>, formatting: Option<Dict>, context: map<string, string>)
    requires GetContextData(data, context).None? || text !in GetContextData(data, context).value.Values
    ensures TranslateText(Some(data), extension, text, num, formatting, context)
         == TranslateText(Some(DataOptions(data.Values, None)), extension, text, num, formatting, context)
  {
  }

  /** With a count and no overlay selected, a rule list in the main table
      yields the text of its earliest matching triple with the count and the
      formatting applied. */
  lemma MainRuleIsUsed(data: DataOptions, extension: Option<Extension>, text: string, n: Int32,
                       formatting: Option<Dict>, context: map<string, string>, i: nat)
    requires GetContextData(data, context).None?
    requires text in data.Values && data.Values[text].Rules?
    requires i < |data.Values[text].triples| && RuleMatches(data.Values[text].triples[i], Some(n))
    requires forall j :: 0 <= j < i ==> !RuleMatches(data.Values[text].triples[j], Some(n))
    ensures TranslateText(Some(data), extension, text, Some(n), formatting, context)
         == FormatText(ApplyNumbers(RuleText(data.Values[text].triples[i]), Some(n)), formatting)
  {
    FirstRuleIsEarliest(data.Values[text].triples, Some(n), i);
  }

  /** A text that no table holds comes back as the original text, with the
      count and the formatting applied: a missing key never fails. */
  lemma MissingKeyUsesOriginalText(data: DataOptions, extension: Option<Extension>, text: string,
                                   num: Option<Int32>, formatting: Option<Dict>, context: map<string, string>)
    requires text !in data.Values
    requires forall i :: 0 <= i < |Overlays(data)| ==> text !in Overlays(data)[i].Values
    ensures TranslateText(Some(data), extension, text, num, formatting, context) == UseOriginalText(text, num, formatting)
  {
    var overlay := GetContextData(data, context);
    if overlay.Some? {
      var i :| 0 <= i < |Overlays(data)| && Overlays(data)[i] == overlay.value;
      assert text !in overlay.value.Values;
    }
  }

  /** A bag in the selected overlay always counts as found: without an
      extension it yields the original text, and the main table is not
      consulted even when it has a translation. */
  lemma OverlayBagWithoutExtensionStops(data: DataOptions, text: string, num: Option<Int32>,
                                        formatting: Option<Dict>, context: map<string, string>)
    requires GetContextData(data, context).Some?
    requires text in GetContextData(data, context).value.Values
    requires GetContextData(data, context).value.Values[text].Bag?
    ensures TranslateText(Some(data), None, text, num, formatting, context) == UseOriginalText(text, num, formatting)
  {
  }

  /** The extension's template gets the count and the formatting applied
      afterwards, exactly as a rule's text does. */
  lemma ExtensionTemplateIsSubstituted(data: DataOptions, extension: Extension, text: string, num: Option<Int32>,
                                       formatting: Option<Dict>, context: map<string, string>)
    requires GetContextData(data, context).None?
    requires text in data.Values && data.Values[text].Bag?
    ensures TranslateText(Some(data), Some(extension), text, num, formatting, context)
         == FormatText(ApplyNumbers(extension(text, num, formatting, data.Values[text].entries), num), formatting)
  {
  }

  /** The fallback fills a lone `%n` with the count. */
  lemma OriginalTextFillsCount(a: string, b: string, n: Int32)
    requires Lacks(a, '%') && Lacks(b, '%')
    ensures UseOriginalText(a + NumberToken + b, Some(n), None) == a + IntToString(n) + b
  {
    ReplaceAllSingle(a, b, NumberToken, IntToString(n));
  }

  /** The fallback replaces `%n` only: a `-%n` in the original text keeps
      its minus sign, where `ApplyNumbers` would negate the count. */
  lemma OriginalTextDoesNotNegate(a: string, b: string, n: Int32)
    requires Lacks(a, '%') && Lacks(b, '%')
    ensures UseOriginalText(a + NegatedNumberToken + b, Some(n), None) == a + "-" + IntToString(n) + b
    ensures ApplyNumbers(a + NegatedNumberToken + b, Some(n)) == a + IntToString(Negate(n)) + b
  {
    var a' := a + "-";
    assert Lacks(a', '%') by {
      forall i | 0 <= i < |a'| ensures a'[i] != '%' {
        if i < |a| { assert a'[i] == a[i]; }
      }
    }
    assert a + NegatedNumberToken + b == a' + NumberToken + b;
    ReplaceAllSingle(a', b, NumberToken, IntToString(n));
    ApplyNumbersNegatedToken(a, b, n);
  }
}
