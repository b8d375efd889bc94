/**
 * What the reply routing of the chat handler guarantees: matching is done on
 * the lower-cased, stripped message; keywords match as plain substrings; the
 * earliest rule that fires wins; the model is asked exactly when no keyword
 * occurs; and its prompt carries the original message verbatim.
 */
module ChatbotProperties {
  import opened PyStr
  import opened Wrappers
  import opened Chatbot

  /** The shape of every keyword in the table: lower-case ASCII letters,
      blanks and slashes, not starting or ending with a blank. */
  predicate IsKeyword(kw: string) {
    && kw != []
    && !IsSpace(kw[0])
    && !IsSpace(kw[|kw| - 1])
    && forall k :: 0 <= k < |kw| ==> ('a' <= kw[k] <= 'z') || kw[k] == ' ' || kw[k] == '/'
  }

  lemma RulesHaveKeywords()
    ensures forall i, k :: 0 <= i < |RULES| && 0 <= k < |RULES[i].keywords| ==> IsKeyword(RULES[i].keywords[k])
  {
    forall i, k | 0 <= i < |RULES| && 0 <= k < |RULES[i].keywords| ensures IsKeyword(RULES[i].keywords[k]) {
      if i == 0 { assert RULES[0].keywords == ["hello", "hi", "hey"]; }
      else if i == 1 { assert RULES[1].keywords == ["services"]; }
      else if i == 2 { assert RULES[2].keywords == ["web development"]; }
      else if i == 3 { assert RULES[3].keywords == ["ai integration"]; }
      else if i == 4 { assert RULES[4].keywords == ["mobile app"]; }
      else if i == 5 { assert RULES[5].keywords == ["ui/ux"]; }
      else if i == 6 { assert RULES[6].keywords == ["cloud"]; }
      else if i == 7 { assert RULES[7].keywords == ["digital marketing"]; }
      else if i == 8 { assert RULES[8].keywords == ["mission", "about"]; }
      else { assert RULES[9].keywords == ["contact", "support"]; }
    }
  }

  /** Lower-casing leaves a keyword as it is. */
  lemma KeywordIsLowerCase(kw: string, lower: CaseMap)
    requires ValidCaseMap(lower) && IsKeyword(kw)
    ensures Lower(kw, lower) == kw
  {
    LowerAscii(kw, lower);
    assert AsciiLower(kw) == kw;
  }

  /** Whitespace around a message never changes its normal form, so never
      changes which rule answers it. */
  lemma NormaliseIgnoresSurroundingSpace(message: string, lead: string, trail: string, lower: CaseMap)
    requires ValidCaseMap(lower) && AllSpace(lead) && AllSpace(trail)
    ensures Normalise(lead + message + trail, lower) == Normalise(message, lower)
    ensures Decide(lead + message + trail, lower) == Decide(message, lower)
  {
    LowerAround(lead, message, trail, lower);
    LowerSpace(lead, lower);
    LowerSpace(trail, lower);
    StripIgnoresSurroundingSpace(lead, Lower(message, lower), trail);
  }

  /** Lower-casing works piece by piece. */
  lemma LowerAround(prefix: string, middle: string, suffix: string, lower: CaseMap)
    ensures Lower(prefix + middle + suffix, lower) == Lower(prefix, lower) + Lower(middle, lower) + Lower(suffix, lower)
  {
    LowerAppend(prefix, middle + suffix, lower);
    LowerAppend(middle, suffix, lower);
    assert prefix + middle + suffix == prefix + (middle + suffix);
  }

  /** `m2` is `m1` with the case of some ASCII letters changed. */
  predicate SameUpToAsciiCase(m1: string, m2: string) {
    && |m1| == |m2|
    && forall k :: 0 <= k < |m1| ==>
         m1[k] == m2[k] || (('A' <= m1[k] <= 'Z' || 'a' <= m1[k] <= 'z') && AsciiLowerChar(m1[k]) == AsciiLowerChar(m2[k]))
  }

  /** Changing the case of ASCII letters never changes the normal form, so
      never changes which rule answers. */
  lemma NormaliseIgnoresAsciiCase(m1: string, m2: string, lower: CaseMap)
    requires ValidCaseMap(lower) && SameUpToAsciiCase(m1, m2)
    ensures Normalise(m1, lower) == Normalise(m2, lower)
    ensures Decide(m1, lower) == Decide(m2, lower)
  {
    forall k | 0 <= k < |m1| ensures lower(m1[k]) == lower(m2[k]) {
      if m1[k] != m2[k] {
        assert (m2[k] as int) < 128;
      }
    }
    LowerPointwise(m1, m2, lower);
  }

  /** A keyword matches anywhere, also in the middle of a word: whatever
      surrounds it, its rule or an earlier one answers. */
  lemma KeywordMatchesInsideWords(prefix: string, suffix: string, i: nat, k: nat, lower: CaseMap)
    requires ValidCaseMap(lower)
    requires i < |RULES| && k < |RULES[i].keywords|
    ensures Decide(prefix + RULES[i].keywords[k] + suffix, lower).Matched?
    ensures Decide(prefix + RULES[i].keywords[k] + suffix, lower).index <= i
  {
    var kw := RULES[i].keywords[k];
    RulesHaveKeywords();
    KeywordOccursAfterLowering(prefix, kw, suffix, lower);
    KeywordFiresNoLater(RULES, Normalise(prefix + kw + suffix, lower), i, k);
  }

  /** A keyword written into a message still occurs in its normal form. */
  lemma KeywordOccursAfterLowering(prefix: string, kw: string, suffix: string, lower: CaseMap)
    requires ValidCaseMap(lower) && IsKeyword(kw)
    ensures Occurs(kw, Normalise(prefix + kw + suffix, lower))
  {
    LowerAround(prefix, kw, suffix, lower);
    KeywordIsLowerCase(kw, lower);
    var x := Lower(prefix, lower) + kw + Lower(suffix, lower);
    OccursInMiddle(Lower(prefix, lower), kw, Lower(suffix, lower));
    OccursSurvivesStrip(kw, x);
  }

  /** In any rule table, a rule one of whose keywords occurs answers, unless
      an earlier rule does. */
  lemma KeywordFiresNoLater(rules: seq<Rule>, s: string, i: nat, k: nat)
    requires i < |rules| && k < |rules[i].keywords| && Occurs(rules[i].keywords[k], s)
    ensures FirstFiring(rules, s).Matched? && FirstFiring(rules, s).index <= i
  {
    assert AnyOccurs(rules[i].keywords, s);
  }

  /** Every message that contains "hi", even inside a word, gets the greeting. */
  lemma GreetingInsideWords(prefix: string, suffix: string, lower: CaseMap)
    requires ValidCaseMap(lower)
    ensures Decide(prefix + "hi" + suffix, lower) == Matched(GREETING_RULE)
  {
    assert IsKeyword("hi");
    KeywordOccursAfterLowering(prefix, "hi", suffix, lower);
    GreetingWins(Normalise(prefix + "hi" + suffix, lower));
  }

  /** A question about cloud plans that happens to contain "hi" is greeted. */
  lemma WhichCloudPlanIsGreeted(websiteData: map<string, string>, lower: CaseMap, generate: string -> Completion)
    requires ValidCaseMap(lower)
    ensures Chat("which cloud plan", websiteData, lower, generate)["response"] == AnswerText(Greeting, websiteData)
  {
    GreetingInsideWords("w", "ch cloud plan", lower);
    WhichCloudPlanSpelling();
    ChatMatched("which cloud plan", websiteData, lower, generate, GREETING_RULE);
  }

  lemma WhichCloudPlanSpelling()
    ensures "w" + "hi" + "ch cloud plan" == "which cloud plan"
  {
  }

  /** In any rule table, rule `i` is the first to fire exactly when it fires
      and no earlier rule does. */
  lemma FirstFiringIs(rules: seq<Rule>, s: string, i: nat)
    requires i < |rules|
    ensures FirstFiring(rules, s) == Matched(i) <==>
              AnyOccurs(rules[i].keywords, s) && forall j :: 0 <= j < i ==> !AnyOccurs(rules[j].keywords, s)
  {
    var r := FirstFiring(rules, s);
    if AnyOccurs(rules[i].keywords, s) && forall j :: 0 <= j < i ==> !AnyOccurs(rules[j].keywords, s) {
      assert r.Matched?;
      assert !(r.index < i);
      assert !(r.index > i);
    }
  }

  /** In any rule table, no rule fires exactly when no keyword of any rule
      occurs. */
  lemma NoneFiresIff(rules: seq<Rule>, s: string)
    ensures FirstFiring(rules, s) == Fallback <==>
              forall i, k :: 0 <= i < |rules| && 0 <= k < |rules[i].keywords| ==> !Occurs(rules[i].keywords[k], s)
  {
    if FirstFiring(rules, s) != Fallback {
      var j :| 0 <= j < |rules| && AnyOccurs(rules[j].keywords, s);
      var k :| 0 <= k < |rules[j].keywords| && Occurs(rules[j].keywords[k], s);
    }
  }

  /** The rule at index `i` answers exactly when it fires on the normalised
      message and no earlier rule does. */
  lemma FirstMatchWins(message: string, lower: CaseMap, i: nat)
    requires i < |RULES|
    ensures Decide(message, lower) == Matched(i) <==>
              && AnyOccurs(RULES[i].keywords, Normalise(message, lower))
              && forall j :: 0 <= j < i ==> !AnyOccurs(RULES[j].keywords, Normalise(message, lower))
  {
    FirstFiringIs(RULES, Normalise(message, lower), i);
  }

  /** When rule `i` fires on the normalised message and no earlier rule
      does, the response is rule `i`'s canned reply. */
  lemma ChatMatched(message: string, websiteData: map<string, string>, lower: CaseMap,
                    generate: string -> Completion, i: nat)
    requires i < |RULES|
    requires AnyOccurs(RULES[i].keywords, Normalise(message, lower))
    requires forall j :: 0 <= j < i ==> !AnyOccurs(RULES[j].keywords, Normalise(message, lower))
    ensures Chat(message, websiteData, lower, generate)["response"] == AnswerText(RULES[i].answer, websiteData)
  {
    FirstMatchWins(message, lower, i);
  }

  /** A greeting word wins over every other keyword. */
  lemma GreetingWins(n: string)
    requires Occurs("hello", n) || Occurs("hi", n) || Occurs("hey", n)
    ensures FirstFiring(RULES, n) == Matched(GREETING_RULE)
  {
    assert AnyOccurs(RULES[GREETING_RULE].keywords, n);
    FirstFiringIs(RULES, n, GREETING_RULE);
  }

  /** Without a greeting word, "services" wins over every later keyword. */
  lemma ServicesWins(n: string)
    requires Occurs("services", n) && !Occurs("hello", n) && !Occurs("hi", n) && !Occurs("hey", n)
    ensures FirstFiring(RULES, n) == Matched(SERVICES_RULE)
  {
    assert !AnyOccurs(RULES[GREETING_RULE].keywords, n);
    assert AnyOccurs(RULES[SERVICES_RULE].keywords, n);
    FirstFiringIs(RULES, n, SERVICES_RULE);
  }

  /** "contact" or "support" brings the contact rule once no earlier rule fires. */
  lemma ContactWins(n: string)
    requires Occurs("contact", n) || Occurs("support", n)
    requires forall j :: 0 <= j < CONTACT_RULE ==> !AnyOccurs(RULES[j].keywords, n)
    ensures FirstFiring(RULES, n) == Matched(CONTACT_RULE)
  {
    assert AnyOccurs(RULES[CONTACT_RULE].keywords, n);
    FirstFiringIs(RULES, n, CONTACT_RULE);
  }

  /** A greeting word in the normalised message wins over every other keyword. */
  lemma GreetingFirst(message: string, websiteData: map<string, string>, lower: CaseMap,
                      generate: string -> Completion)
    requires
      var n := Normalise(message, lower);
      Occurs("hello", n) || Occurs("hi", n) || Occurs("hey", n)
    ensures Chat(message, websiteData, lower, generate)["response"] == AnswerText(Greeting, websiteData)
  {
    GreetingWins(Normalise(message, lower));
    ChatMatched(message, websiteData, lower, generate, GREETING_RULE);
  }

  /** Without a greeting word, "services" wins over every later keyword
      ("cloud", "contact", ...). */
  lemma ServicesBeforeLaterRules(message: string, websiteData: map<string, string>, lower: CaseMap,
                                 generate: string -> Completion)
    requires
      var n := Normalise(message, lower);
      Occurs("services", n) && !Occurs("hello", n) && !Occurs("hi", n) && !Occurs("hey", n)
    ensures Chat(message, websiteData, lower, generate)["response"] == AnswerText(Services, websiteData)
  {
    ServicesWins(Normalise(message, lower));
    ChatMatched(message, websiteData, lower, generate, SERVICES_RULE);
  }

  /** The contact rule answers with the site's contact information, or with
      the default text when the site data has none. */
  lemma ContactLookup(message: string, websiteData: map<string, string>, lower: CaseMap,
                      generate: string -> Completion)
    requires
      var n := Normalise(message, lower);
      && (Occurs("contact", n) || Occurs("support", n))
      && forall j :: 0 <= j < CONTACT_RULE ==> !AnyOccurs(RULES[j].keywords, n)
    ensures CONTACT_KEY in websiteData ==>
              Chat(message, websiteData, lower, generate)["response"] == websiteData[CONTACT_KEY]
    ensures CONTACT_KEY !in websiteData ==>
              Chat(message, websiteData, lower, generate)["response"] == CONTACT_DEFAULT
  {
    ContactWins(Normalise(message, lower));
    ChatMatched(message, websiteData, lower, generate, CONTACT_RULE);
    assert RULES[CONTACT_RULE].answer == ContactInfo;
    ContactAnswer(websiteData);
  }

  /** The contact answer is `websiteData.get("contact_info", default)`. */
  lemma ContactAnswer(websiteData: map<string, string>)
    ensures CONTACT_KEY in websiteData ==> AnswerText(ContactInfo, websiteData) == websiteData[CONTACT_KEY]
    ensures CONTACT_KEY !in websiteData ==> AnswerText(ContactInfo, websiteData) == CONTACT_DEFAULT
  {
  }

  /** No rule answers exactly when no keyword of any rule occurs. */
  lemma FallbackIffNoKeyword(message: string, lower: CaseMap)
    ensures Decide(message, lower) == Fallback <==>
              forall i, k :: 0 <= i < |RULES| && 0 <= k < |RULES[i].keywords| ==>
                !Occurs(RULES[i].keywords[k], Normalise(message, lower))
  {
    NoneFiresIff(RULES, Normalise(message, lower));
  }

  /** When a rule answers, the model plays no part in the response. */
  lemma RuleReplyIgnoresModel(message: string, websiteData: map<string, string>, lower: CaseMap,
                              generate1: string -> Completion, generate2: string -> Completion)
    requires Decide(message, lower).Matched?
    ensures Chat(message, websiteData, lower, generate1) == Chat(message, websiteData, lower, generate2)
  {
  }

  /** When no keyword of any rule occurs in the normalised message, the
      response is the model's answer to the prompt built from the original
      message. */
  lemma FallbackAsksModel(message: string, websiteData: map<string, string>, lower: CaseMap,
                          generate: string -> Completion)
    requires forall i, k :: 0 <= i < |RULES| && 0 <= k < |RULES[i].keywords| ==>
               !Occurs(RULES[i].keywords[k], Normalise(message, lower))
    ensures Chat(message, websiteData, lower, generate) == Respond(ModelText(generate(Prompt(message))))
  {
    FallbackIffNoKeyword(message, lower);
  }

  /** The model is consulted exactly when no rule fires: only then do two
      different model outcomes give two different responses. */
  lemma ModelConsultedIffNoRuleFires(message: string, websiteData: map<string, string>, lower: CaseMap)
    ensures Decide(message, lower) == Fallback <==>
              Chat(message, websiteData, lower, p => Returned(["ok"]))["response"] != Chat(message, websiteData, lower, p => Raised)["response"]
  {
    var okModel: string -> Completion := p => Returned(["ok"]);
    var raisingModel: string -> Completion := p => Raised;
    match Decide(message, lower)
    case Fallback =>
      FallbackIffNoKeyword(message, lower);
      FallbackAsksModel(message, websiteData, lower, okModel);
      FallbackAsksModel(message, websiteData, lower, raisingModel);
      ModelTextOk();
    case Matched(i) =>
      RuleReplyIgnoresModel(message, websiteData, lower, okModel, raisingModel);
  }

  /** A model that answers "ok" is told apart from one that raises. */
  lemma ModelTextOk()
    ensures ModelText(Returned(["ok"])) == "ok" != ModelText(Raised)
  {
    var r := ModelText(Returned(["ok"]));
    var i :| IsStripAt(r, "ok", i);
    assert "ok"[0] == 'o' && "ok"[1] == 'k';
  }

  /** The prompt quotes the original message verbatim, right after `User: "`,
      and follows it with `"` and the `Assistant:` cue. */
  lemma PromptQuotesMessage(message: string)
    ensures
      var p, h := Prompt(message), |PROMPT_HEAD|;
      h >= 7 && p[h - 7..h + |message| + 12] == "User: \"" + message + "\"\nAssistant:"
  {
    var p, h := Prompt(message), |PROMPT_HEAD|;
    assert PROMPT_HEAD[h - 7..] == "User: \"";
    assert PROMPT_TAIL[..12] == "\"\nAssistant:";
    assert p[h - 7..h + |message| + 12] == PROMPT_HEAD[h - 7..] + message + PROMPT_TAIL[..12];
  }

  /** The message can be read back out of its prompt. */
  lemma PromptRoundTrip(message: string)
    ensures PromptedMessage(Prompt(message)) == Some(message)
  {
    var p := Prompt(message);
    assert p[|p| - |PROMPT_TAIL|..] == PROMPT_TAIL;
  }

  /** Whatever the message can be read back from was built from it. */
  lemma PromptedMessageIsSource(p: string, message: string)
    requires PromptedMessage(p) == Some(message)
    ensures Prompt(message) == p
  {
    var h, t := |PROMPT_HEAD|, |PROMPT_TAIL|;
    assert p == p[..h] + p[h..|p| - t] + p[|p| - t..];
  }
}
