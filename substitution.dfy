/** Substitution of the count (`%n`, `-%n`) and of named placeholders
    (`%{name}`) into a template, as `Translator.ApplyNumbers` and
    `Translator.ApplyFormatting` do it. */
module Substitution {
  import opened Common
  import opened Text

  const NumberToken: string := "%n"
  const NegatedNumberToken: string := "-%n"

  /** `ApplyNumbers`: with a count, every `-%n` becomes the decimal text of
      the negated count first, then every remaining `%n` the decimal text of
      the count; without a count the template is returned unchanged. */
  function ApplyNumbers(text: string, num: Option<Int32>): (r: string)
    // nothing is substituted without a count, nor into a template without `%`
    ensures num.None? ==> r == text
    ensures Lacks(text, '%') ==> r == text
  {
    if num.None? then text
    else
      var negated := ReplaceAll(text, NegatedNumberToken, IntToString(Negate(num.value)));
      assert NegatedNumberToken[1] == NumberToken[0] == '%';
      LacksInnerMeansAbsent(text, NegatedNumberToken, 1);
      LacksInnerMeansAbsent(text, NumberToken, 0);
      ReplaceAll(negated, NumberToken, IntToString(num.value))
  }

  /** Text with neither `-` nor `%` between them: the only tokens are the ones
      a lemma puts there. */
  predicate Plain(s: string)
  {
    Lacks(s, '-') && Lacks(s, '%')
  }

  /** Decimal text holds no `%`. */
  lemma IntToStringLacksPercent(i: int)
    ensures Lacks(IntToString(i), '%')
  {
  }

  /** A string whose second character is not `%` does not start with `-%n`:
      its first character is copied. */
  lemma NegatedTokenNotAtFront(t: string, rep: string)
    requires |t| >= 2 && t[1] != '%'
    ensures ReplaceAll(t, NegatedNumberToken, rep) == [t[0]] + ReplaceAll(t[1..], NegatedNumberToken, rep)
  {
    if |t| >= 3 {
      assert t[..3][1] == t[1];
    }
  }

  /** A prefix without `%` holds no start of `-%n`, even at its end, as long
      as what follows does not begin with `%`: it is copied as it is. */
  lemma {:induction false} NegatedTokenFreePrefix(a: string, s: string, rep: string)
    requires Lacks(a, '%') && (|s| > 0 ==> s[0] != '%')
    ensures ReplaceAll(a + s, NegatedNumberToken, rep) == a + ReplaceAll(s, NegatedNumberToken, rep)
    decreases |a|
  {
    if a == [] {
      assert a + s == s;
    } else if |a| == 1 && s == [] {
      assert a + s == a;
    } else {
      var t, u := a + s, a[1..];
      assert Lacks(u, '%') by {
        forall i | 0 <= i < |u| ensures u[i] != '%' { assert u[i] == a[i + 1]; }
      }
      assert t[1..] == u + s;
      assert t[1] != '%' by {
        if |u| > 0 { assert t[1] == u[0]; } else { assert t[1] == s[0]; }
      }
      NegatedTokenNotAtFront(t, rep);
      NegatedTokenFreePrefix(u, s, rep);
      assert a == [a[0]] + u;
    }
  }

  /** `-%n` is replaced as one token by the negated count: its `%n` is not
      substituted a second time. A `-` next to the token is plain text. */
  lemma ApplyNumbersNegatedToken(a: string, b: string, n: Int32)
    requires Lacks(a, '%') && Lacks(b, '%')
    ensures ApplyNumbers(a + NegatedNumberToken + b, Some(n)) == a + IntToString(Negate(n)) + b
  {
    var s := IntToString(Negate(n));
    assert a + NegatedNumberToken + b == a + (NegatedNumberToken + b);
    NegatedTokenFreePrefix(a, NegatedNumberToken + b, s);
    assert (NegatedNumberToken + b)[..3] == NegatedNumberToken;
    assert (NegatedNumberToken + b)[3..] == b;
    assert NegatedNumberToken[1] == '%';
    LacksInnerMeansAbsent(b, NegatedNumberToken, 1);
    assert ReplaceAll(NegatedNumberToken + b, NegatedNumberToken, s) == s + b;
    assert a + (s + b) == a + s + b;
    var t := a + s + b;
    IntToStringLacksPercent(Negate(n));
    assert Lacks(t, '%') by {
      forall i | 0 <= i < |t| ensures t[i] != '%' {
        if i < |a| { assert t[i] == a[i]; }
        else if i < |a| + |s| { assert t[i] == s[i - |a|]; }
        else { assert t[i] == b[i - |a| - |s|]; }
      }
    }
    LacksFirstMeansAbsent(t, NumberToken);
    ReplaceAllAbsent(t, NumberToken, IntToString(n));
  }

  /** A lone `%n` is replaced by the count. */
  lemma ApplyNumbersToken(a: string, b: string, n: Int32)
    requires Plain(a) && Plain(b)
    ensures ApplyNumbers(a + NumberToken + b, Some(n)) == a + IntToString(n) + b
  {
    var t := a + NumberToken + b;
    assert Lacks(t, '-') by {
      forall i | 0 <= i < |t| ensures t[i] != '-' {
        if i < |a| { assert t[i] == a[i]; }
        else if i < |a| + 2 { assert t[i] == NumberToken[i - |a|]; }
        else { assert t[i] == b[i - |a| - 2]; }
      }
    }
    LacksFirstMeansAbsent(t, NegatedNumberToken);
    ReplaceAllAbsent(t, NegatedNumberToken, IntToString(Negate(n)));
    ReplaceAllSingle(a, b, NumberToken, IntToString(n));
  }

  /** The token a formatting key `k` fills: `%{k}`. */
  function Placeholder(key: string): (t: string)
    ensures |t| == |key| + 3 && t[0] == '%'
  {
    "%{" + key + "}"
  }

  /** Sequential literal replacement of `%{k}` by `v` for each entry `(k, v)`,
      in the order given. */
  function FormatEntries(text: string, entries: seq<(string, string)>): (r: string)
    // a template without `%` holds no placeholder and is left as it is
    ensures Lacks(text, '%') ==> r == text
    decreases |entries|
  {
    if entries == [] then text
    else
      LacksInnerMeansAbsent(text, Placeholder(entries[0].0), 0);
      FormatEntries(ReplaceAll(text, Placeholder(entries[0].0), entries[0].1), entries[1..])
  }

  /** The result `ApplyFormatting` computes: the template unchanged without a
      formatting dictionary, otherwise every entry substituted in enumeration order. */
  function FormatText(text: string, formatting: Option<Dict>): (r: string)
    ensures formatting.None? || formatting == Some([]) ==> r == text
    ensures Lacks(text, '%') ==> r == text
  {
    if formatting.None? then text else FormatEntries(text, formatting.value)
  }

  /** `ApplyFormatting`: reassigns the template once per dictionary entry. */
  method ApplyFormatting(text: string, formatting: Option<Dict>) returns (r: string)
    ensures r == FormatText(text, formatting)
  {
    r := text;
    if formatting.Some? {
      var entries := formatting.value;
      var i := 0;
      while i < |entries|
        invariant 0 <= i <= |entries|
        invariant FormatEntries(r, entries[i..]) == FormatEntries(text, entries)
      {
        assert entries[i..][1..] == entries[i + 1..];
        r := ReplaceAll(r, Placeholder(entries[i].0), entries[i].1);
        i := i + 1;
      }
    }
  }

  /** Formatting with `e1` and then with `e2` is formatting with `e1 + e2`. */
  lemma {:induction false} FormatEntriesAppend(text: string, e1: seq<(string, string)>, e2: seq<(string, string)>)
    ensures FormatEntries(text, e1 + e2) == FormatEntries(FormatEntries(text, e1), e2)
    decreases |e1|
  {
    if e1 == [] {
      assert e1 + e2 == e2;
    } else {
      assert (e1 + e2)[0] == e1[0];
      assert (e1 + e2)[1..] == e1[1..] + e2;
      FormatEntriesAppend(ReplaceAll(text, Placeholder(e1[0].0), e1[0].1), e1[1..], e2);
    }
  }

  /** A single placeholder between `%`-free text is filled with its value. */
  lemma FormatSingle(a: string, b: string, key: string, v: string)
    requires Lacks(a, '%') && Lacks(b, '%')
    ensures FormatText(a + Placeholder(key) + b, Some([(key, v)])) == a + v + b
  {
    var e := [(key, v)];
    ReplaceAllSingle(a, b, Placeholder(key), v);
    assert e[0] == (key, v) && e[1..] == [];
    assert FormatEntries(a + Placeholder(key) + b, e)
        == FormatEntries(ReplaceAll(a + Placeholder(key) + b, Placeholder(key), v), []);
  }

  /** Replacement is sequential: a value that itself holds a later
      placeholder is filled again, so the order of the entries matters. */
  lemma FormattingIsOrderSensitive()
    ensures FormatText("%{a}", Some([("a", "%{b}"), ("b", "x")])) == "x"
    ensures FormatText("%{a}", Some([("b", "x"), ("a", "%{b}")])) == "%{b}"
  {
    assert Placeholder("a") == "%{a}" && Placeholder("b") == "%{b}";
    ReplaceAllSingle("", "", "%{a}", "%{b}");
    assert "" + "%{a}" + "" == "%{a}";
    ReplaceAllSingle("", "", "%{b}", "x");
    assert "" + "%{b}" + "" == "%{b}";
    assert forall i :: !OccursAt("%{a}", "%{b}", i);
    ReplaceAllAbsent("%{a}", "%{b}", "x");
    assert [("a", "%{b}"), ("b", "x")][1..] == [("b", "x")];
    assert [("b", "x"), ("a", "%{b}")][1..] == [("a", "%{b}")];
  }
}
