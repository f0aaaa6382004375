/** The repository's unit-test scenarios, stated for every count where the
    tests pick a few, and proved from the model. */
module Scenarios {
  import opened Common
  import opened Text
  import opened Options
  import opened Substitution
  import opened Resolution
  import opened I18n

  /** A plain string entry is returned as it is when no count is given. */
  lemma HelloScenario()
    ensures var data := DataOptions(map["Hello" := Str("Hello translated")], None);
      TranslateText(Some(data), None, "Hello", RouteArguments([], map[]).num,
                    RouteArguments([], map[]).formatting, map[]) == "Hello translated"
  {
  }

  /** The three comment rules of the plural test. */
  const CommentRules: seq<seq<Element>> := [
    [IntE(0), IntE(0), StrE("%n comments")],
    [IntE(1), IntE(1), StrE("%n comment")],
    [IntE(2), NullE, StrE("%n comments")]
  ]

  const CommentsKey: string := "%n comments"

  function CommentsData(): DataOptions
  {
    DataOptions(map[CommentsKey := Rules(CommentRules)], None)
  }

  /** A count that the `i`-th comment rule is the first to cover gets that
      rule's text, with the count substituted. */
  lemma CommentsRule(n: Int32, i: nat)
    requires i < |CommentRules| && RuleMatches(CommentRules[i], Some(n))
    requires forall j :: 0 <= j < i ==> !RuleMatches(CommentRules[j], Some(n))
    ensures TranslateText(Some(CommentsData()), None, CommentsKey, Some(n), None, map[])
         == ApplyNumbers(RuleText(CommentRules[i]), Some(n))
  {
    MainRuleIsUsed(CommentsData(), None, CommentsKey, n, None, map[], i);
  }

  lemma CommentsTemplate(n: Int32)
    ensures ApplyNumbers("%n comments", Some(n)) == IntToString(n) + " comments"
  {
    assert "%n comments" == "" + NumberToken + " comments";
    ApplyNumbersToken("", " comments", n);
  }

  lemma CommentTemplate(n: Int32)
    ensures ApplyNumbers("%n comment", Some(n)) == IntToString(n) + " comment"
  {
    assert "%n comment" == "" + NumberToken + " comment";
    ApplyNumbersToken("", " comment", n);
  }

  /** Zero takes the first rule. */
  lemma CommentsZero(n: Int32)
    requires n == 0
    ensures TranslateText(Some(CommentsData()), None, CommentsKey, Some(n), None, map[]) == "0 comments"
  {
    assert IntToString(n) + " comments" == "0 comments";
    CommentsRule(n, 0);
    CommentsTemplate(n);
  }

  /** One takes the singular rule. */
  lemma CommentsOne(n: Int32)
    requires n == 1
    ensures TranslateText(Some(CommentsData()), None, CommentsKey, Some(n), None, map[]) == "1 comment"
  {
    assert IntToString(n) + " comment" == "1 comment";
    CommentsRule(n, 1);
    CommentTemplate(n);
  }

  /** Every count from two up takes the open-ended rule. */
  lemma CommentsFromTwo(n: Int32)
    requires n >= 2
    ensures TranslateText(Some(CommentsData()), None, CommentsKey, Some(n), None, map[]) == IntToString(n) + " comments"
  {
    CommentsRule(n, 2);
    CommentsTemplate(n);
  }

  lemma CommentsFallback(n: Int32)
    ensures UseOriginalText(CommentsKey, Some(n), None) == IntToString(n) + " comments"
  {
    assert CommentsKey == "" + NumberToken + " comments";
    OriginalTextFillsCount("", " comments", n);
  }

  /** A negative count matches no rule and falls back to the key, which
      reads the same. */
  lemma CommentsNegative(n: Int32)
    requires n < 0
    ensures TranslateText(Some(CommentsData()), None, CommentsKey, Some(n), None, map[]) == IntToString(n) + " comments"
  {
    assert forall i :: 0 <= i < |CommentRules| ==> !RuleMatches(CommentRules[i], Some(n));
    CommentsFallback(n);
  }

  /** The decimal text of the other counts the tests use. */
  lemma DecimalExamples(n: int)
    ensures n == 2 ==> IntToString(n) == "2"
    ensures n == 10 ==> IntToString(n) == "10"
  {
    if n == 10 {
      assert Digits(1) == "1";
      assert Digits(10) == Digits(1) + [DigitChar(0)];
    }
  }

  /** The counts of the plural test that the ranges above do not name. */
  lemma CommentsTwo(n: Int32)
    requires n == 2
    ensures TranslateText(Some(CommentsData()), None, CommentsKey, Some(n), None, map[]) == "2 comments"
  {
    assert IntToString(n) + " comments" == "2 comments" by { DecimalExamples(n); }
    CommentsFromTwo(n);
  }

  lemma CommentsTen(n: Int32)
    requires n == 10
    ensures TranslateText(Some(CommentsData()), None, CommentsKey, Some(n), None, map[]) == "10 comments"
  {
    assert IntToString(n) + " comments" == "10 comments" by { DecimalExamples(n); }
    CommentsFromTwo(n);
  }

  /** The due-date rules of the negative-count test. */
  const DueRules: seq<seq<Element>> := [
    [NullE, IntE(-2), StrE("Due -%n days ago")],
    [IntE(-1), IntE(-1), StrE("Due Yesterday")],
    [IntE(0), IntE(0), StrE("Due Today")],
    [IntE(1), IntE(1), StrE("Due Tomorrow")],
    [IntE(2), NullE, StrE("Due in %n days")]
  ]

  const DueKey: string := "Due in %n days"

  function DueData(): DataOptions
  {
    DataOptions(map[DueKey := Rules(DueRules)], None)
  }

  /** A count that the `i`-th due-date rule is the first to cover gets that
      rule's text, with the count substituted. */
  lemma DueRule(n: Int32, i: nat)
    requires i < |DueRules| && RuleMatches(DueRules[i], Some(n))
    requires forall j :: 0 <= j < i ==> !RuleMatches(DueRules[j], Some(n))
    ensures TranslateText(Some(DueData()), None, DueKey, Some(n), None, map[])
         == ApplyNumbers(RuleText(DueRules[i]), Some(n))
  {
    MainRuleIsUsed(DueData(), None, DueKey, n, None, map[], i);
  }

  lemma DueAgoTemplate(n: Int32)
    ensures ApplyNumbers("Due -%n days ago", Some(n)) == "Due " + IntToString(Negate(n)) + " days ago"
  {
    assert "Due -%n days ago" == "Due " + NegatedNumberToken + " days ago";
    ApplyNumbersNegatedToken("Due ", " days ago", n);
  }

  lemma DueInTemplate(n: Int32)
    ensures ApplyNumbers("Due in %n days", Some(n)) == "Due in " + IntToString(n) + " days"
  {
    assert "Due in %n days" == "Due in " + NumberToken + " days";
    ApplyNumbersToken("Due in ", " days", n);
  }

  /** A template without `%` is its own result; stated over a variable so
      that the literal texts below are not unfolded character by character. */
  lemma TokenFreeTemplate(t: string, num: Option<Int32>)
    requires Lacks(t, '%')
    ensures ApplyNumbers(t, num) == t
  {
  }

  /** The texts of the three closed rules hold no token. */
  lemma YesterdayTemplate(num: Option<Int32>)
    ensures ApplyNumbers("Due Yesterday", num) == "Due Yesterday"
  {
    TokenFreeTemplate("Due Yesterday", num);
  }

  lemma TodayTemplate(num: Option<Int32>)
    ensures ApplyNumbers("Due Today", num) == "Due Today"
  {
    TokenFreeTemplate("Due Today", num);
  }

  lemma TomorrowTemplate(num: Option<Int32>)
    ensures ApplyNumbers("Due Tomorrow", num) == "Due Tomorrow"
  {
    TokenFreeTemplate("Due Tomorrow", num);
  }

  /** An open lower bound catches every count up to -2, and `-%n` shows its
      magnitude (with the 32-bit wrap-around for `int.MinValue`). */
  lemma DueAgo(n: Int32)
    requires n <= -2
    ensures TranslateText(Some(DueData()), None, DueKey, Some(n), None, map[])
         == "Due " + IntToString(Negate(n)) + " days ago"
  {
    DueRule(n, 0);
    DueAgoTemplate(n);
  }

  /** -1, 0 and 1 each take their own closed rule. */
  lemma DueYesterday(n: Int32)
    requires n == -1
    ensures TranslateText(Some(DueData()), None, DueKey, Some(n), None, map[]) == "Due Yesterday"
  {
    DueRule(n, 1);
    YesterdayTemplate(Some(n));
  }

  lemma DueToday(n: Int32)
    requires n == 0
    ensures TranslateText(Some(DueData()), None, DueKey, Some(n), None, map[]) == "Due Today"
  {
    DueRule(n, 2);
    TodayTemplate(Some(n));
  }

  lemma DueTomorrow(n: Int32)
    requires n == 1
    ensures TranslateText(Some(DueData()), None, DueKey, Some(n), None, map[]) == "Due Tomorrow"
  {
    DueRule(n, 3);
    TomorrowTemplate(Some(n));
  }

  /** The open upper bound catches every count from 2. */
  lemma DueIn(n: Int32)
    requires n >= 2
    ensures TranslateText(Some(DueData()), None, DueKey, Some(n), None, map[])
         == "Due in " + IntToString(n) + " days"
  {
    DueRule(n, 4);
    DueInTemplate(n);
  }

  /** The counts of the negative-count test that the ranges above do not name. */
  lemma DueTenAgo(n: Int32)
    requires n == -10
    ensures TranslateText(Some(DueData()), None, DueKey, Some(n), None, map[]) == "Due 10 days ago"
  {
    assert "Due " + IntToString(Negate(n)) + " days ago" == "Due 10 days ago" by { DecimalExamples(Negate(n)); }
    DueAgo(n);
  }

  lemma DueTwoAgo(n: Int32)
    requires n == -2
    ensures TranslateText(Some(DueData()), None, DueKey, Some(n), None, map[]) == "Due 2 days ago"
  {
    assert "Due " + IntToString(Negate(n)) + " days ago" == "Due 2 days ago" by { DecimalExamples(Negate(n)); }
    DueAgo(n);
  }

  lemma DueInTwo(n: Int32)
    requires n == 2
    ensures TranslateText(Some(DueData()), None, DueKey, Some(n), None, map[]) == "Due in 2 days"
  {
    assert "Due in " + IntToString(n) + " days" == "Due in 2 days" by { DecimalExamples(n); }
    DueIn(n);
  }

  lemma DueInTen(n: Int32)
    requires n == 10
    ensures TranslateText(Some(DueData()), None, DueKey, Some(n), None, map[]) == "Due in 10 days"
  {
    assert "Due in " + IntToString(n) + " days" == "Due in 10 days" by { DecimalExamples(n); }
    DueIn(n);
  }

  /** Without data the key is formatted in place. */
  lemma WelcomeScenario(name: string)
    ensures var c := RouteArguments([DictArg([("name", name)])], map[]);
      TranslateText(None, None, "Welcome %{name}", c.num, c.formatting, c.context) == "Welcome " + name
  {
    assert RouteArguments([DictArg([("name", name)])], map[]) == Call(None, Some([("name", name)]), map[]);
    WelcomeTemplate(name);
  }

  lemma WelcomeTemplate(name: string)
    ensures FormatText("Welcome %{name}", Some([("name", name)])) == "Welcome " + name
  {
    assert "Welcome %{name}" == "Welcome " + Placeholder("name") + "";
    FormatSingle("Welcome ", "", "name", name);
    assert "Welcome " + name + "" == "Welcome " + name;
  }

  const ProfileKey: string := "%{name} updated their profile"

  function ProfileData(): DataOptions
  {
    DataOptions(map[], Some([
      ContextOptions(map["gender" := "male"], map[ProfileKey := Str("%{name} updated his profile")]),
      ContextOptions(map["gender" := "female"], map[ProfileKey := Str("%{name} updated her profile")])
    ]))
  }

  /** The two dictionaries of the context test route to formatting and
      context. */
  lemma ProfileRouting(name: string, gender: string)
    ensures RouteArguments([DictArg([("name", name)]), DictArg([("gender", gender)])], map[])
         == Call(None, Some([("name", name)]), map["gender" := gender])
  {
    assert ToMap([("gender", gender)]) == map["gender" := gender];
  }

  /** Each gender selects its own overlay; any other gender selects none. */
  lemma ProfileOverlays(gender: string)
    ensures gender == "male" ==> GetContextData(ProfileData(), map["gender" := gender]) == Some(Overlays(ProfileData())[0])
    ensures gender == "female" ==> GetContextData(ProfileData(), map["gender" := gender]) == Some(Overlays(ProfileData())[1])
    ensures gender != "male" && gender != "female" ==> GetContextData(ProfileData(), map["gender" := gender]).None?
  {
    var os := Overlays(ProfileData());
    var ctx := map["gender" := gender];
    assert "gender" in os[0].Matches && os[0].Matches["gender"] == "male";
    assert "gender" in os[1].Matches && os[1].Matches["gender"] == "female";
    if gender == "male" {
      FirstMatchingIsEarliest(os, ctx, 0);
    } else if gender == "female" {
      FirstMatchingIsEarliest(os, ctx, 1);
    }
  }

  /** A template that starts with `%{name}` and has no other `%` gets the
      name in front, whatever the name holds. */
  lemma NameFirst(name: string, rest: string)
    requires Lacks(rest, '%')
    ensures FormatText("%{name}" + rest, Some([("name", name)])) == name + rest
  {
    assert "%{name}" + rest == "" + Placeholder("name") + rest;
    FormatSingle("", rest, "name", name);
  }

  /** The three profile templates hold the one placeholder `%{name}`. */
  lemma HisTemplate(name: string)
    ensures FormatText("%{name} updated his profile", Some([("name", name)])) == name + " updated his profile"
  {
    assert "%{name} updated his profile" == "%{name}" + " updated his profile";
    NameFirst(name, " updated his profile");
  }

  lemma HerTemplate(name: string)
    ensures FormatText("%{name} updated her profile", Some([("name", name)])) == name + " updated her profile"
  {
    assert "%{name} updated her profile" == "%{name}" + " updated her profile";
    NameFirst(name, " updated her profile");
  }

  lemma TheirTemplate(name: string)
    ensures FormatText(ProfileKey, Some([("name", name)])) == name + " updated their profile"
  {
    assert ProfileKey == "%{name}" + " updated their profile";
    NameFirst(name, " updated their profile");
  }

  /** The context passed after the formatting selects the overlay for the
      male gender. */
  lemma ProfileMale(name: string, extension: Option<Extension>)
    ensures var c := RouteArguments([DictArg([("name", name)]), DictArg([("gender", "male")])], map[]);
      TranslateText(Some(ProfileData()), extension, ProfileKey, c.num, c.formatting, c.context)
        == name + " updated his profile"
  {
    ProfileRouting(name, "male");
    ProfileOverlays("male");
    HisTemplate(name);
    OverlayStringIsUsed(ProfileData(), extension, ProfileKey, Some([("name", name)]), map["gender" := "male"],
                        Overlays(ProfileData())[0]);
  }

  /** ... and the one for the female gender. */
  lemma ProfileFemale(name: string, extension: Option<Extension>)
    ensures var c := RouteArguments([DictArg([("name", name)]), DictArg([("gender", "female")])], map[]);
      TranslateText(Some(ProfileData()), extension, ProfileKey, c.num, c.formatting, c.context)
        == name + " updated her profile"
  {
    ProfileRouting(name, "female");
    ProfileOverlays("female");
    HerTemplate(name);
    OverlayStringIsUsed(ProfileData(), extension, ProfileKey, Some([("name", name)]), map["gender" := "female"],
                        Overlays(ProfileData())[1]);
  }

  /** A gender that matches neither overlay falls back to the key, formatted. */
  lemma ProfileOtherGender(name: string, gender: string, extension: Option<Extension>)
    requires gender != "male" && gender != "female"
    ensures var c := RouteArguments([DictArg([("name", name)]), DictArg([("gender", gender)])], map[]);
      TranslateText(Some(ProfileData()), extension, ProfileKey, c.num, c.formatting, c.context)
        == name + " updated their profile"
  {
    ProfileRouting(name, gender);
    ProfileOverlays(gender);
    TheirTemplate(name);
  }

  /** The data a session ends up with after adding a first greeting, the
      profile overlays and a second greeting. */
  function SessionData(): DataOptions
  {
    DataOptions(map["Hello" := Str("Hello translated")], ProfileData().Contexts)
  }

  /** The later greeting overwrites the earlier one; the overlays are kept. */
  lemma SessionMerges()
    ensures Merge(Merge(DataOptions(map["Hello" := Str("Hi")], None), ProfileData()),
                  DataOptions(map["Hello" := Str("Hello translated")], None))
         == SessionData()
  {
    var m := Merge(DataOptions(map["Hello" := Str("Hi")], None), ProfileData());
    assert [] + Overlays(ProfileData()) == Overlays(ProfileData());
    assert m.Contexts == ProfileData().Contexts;
    assert (map[] + map["Hello" := Str("Hi")]) + map["Hello" := Str("Hello translated")]
        == map["Hello" := Str("Hello translated")];
  }

  /** The session's overlays are the profile ones, and the main table has no
      profile entry, so profile texts resolve as with the profile data alone. */
  lemma SessionOverlaysAreProfiles(extension: Option<Extension>, text: string, num: Option<Int32>,
                                   formatting: Option<Dict>, context: map<string, string>)
    requires text != "Hello"
    ensures TranslateText(Some(SessionData()), extension, text, num, formatting, context)
         == TranslateText(Some(ProfileData()), extension, text, num, formatting, context)
  {
  }

  /** Without a context no overlay applies and the main table answers. */
  lemma SessionHello(extension: Option<Extension>)
    ensures TranslateText(Some(SessionData()), extension, "Hello", None, None, map[]) == "Hello translated"
  {
    var os := Overlays(SessionData());
    assert "gender" in os[0].Matches && "gender" in os[1].Matches;
  }

  /** The global context selects the female overlay. */
  lemma SessionProfile(extension: Option<Extension>)
    ensures TranslateText(Some(SessionData()), extension, ProfileKey, None, Some([("name", "Jane")]),
                          map["gender" := "female"])
         == "Jane updated her profile"
  {
    assert "Jane" + " updated her profile" == "Jane updated her profile";
    ProfileFemale("Jane", extension);
    ProfileRouting("Jane", "female");
    SessionOverlaysAreProfiles(extension, ProfileKey, None, Some([("name", "Jane")]), map["gender" := "female"]);
  }

  /** How the session's calls are routed. */
  lemma SessionRouting()
    ensures RouteArguments([], map[]) == Call(None, None, map[])
    ensures RouteArguments([DictArg([("name", "Jane")])], map["gender" := "female"])
         == Call(None, Some([("name", "Jane")]), map["gender" := "female"])
  {
  }

  /** A translator driven through its methods: data added three times, the
      later greeting wins and the overlays are kept; the global context
      selects an overlay; `Reset` forgets data and context but keeps the
      extension. */
  method TranslatorSession(ext: Extension) returns (hello: string, profile: string, reset: string)
    ensures hello == "Hello translated"
    ensures profile == "Jane updated her profile"
    ensures reset == "Hello"
  {
    var t := new Translator();
    t.Add(DataOptions(map["Hello" := Str("Hi")], None));
    t.Add(ProfileData());
    t.Add(DataOptions(map["Hello" := Str("Hello translated")], None));
    SessionMerges();
    SessionRouting();
    t.Extend(ext);
    hello := t.Translate("Hello", []);
    SessionHello(Some(ext));

    t.SetContext("gender", "female");
    profile := t.Translate(ProfileKey, [DictArg([("name", "Jane")])]);
    SessionProfile(Some(ext));

    t.Reset();
    reset := t.Translate("Hello", []);
    NoDataUsesOriginalText(Some(ext), "Hello", None, None, map[]);
  }
}
