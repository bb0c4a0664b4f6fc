/**
 The keyword-activated front end of the assistant's main loop: the ordered
 keyword router, the extraction of the command text that follows the
 activation keyword, and the one-shot activation check of the chunked
 listening loop. Workflows are named by a `Handler` value; their bodies
 (remote model, speech and shell calls) are not part of this model.
 */
module Assistant {
  import opened Wrappers
  import opened Text

  /** The workflows the router can select. */
  datatype Handler =
    | ConfigureAssistant
    | ExampleCode
    | ImageToVueComponent
    | RunBashCommand
    | ShellCommand
    | QuestionAnswer
    | SoftTalk
    | EndConversation

  /** One router entry: comma-separated alternative keywords and the workflow they select. */
  datatype Route = Route(keywordGroup: string, handler: Handler)

  /** The router table, in the dictionary's insertion order, which is the search order. */
  const Routes: seq<Route> := [
    Route("configure,configuration", ConfigureAssistant),
    Route("example code", ExampleCode),
    Route("view component", ImageToVueComponent),
    Route("bash,browser", RunBashCommand),
    Route("shell", ShellCommand),
    Route("question", QuestionAnswer),
    Route("hello,hey,hi", SoftTalk),
    Route("exit", EndConversation)
  ]

  /** `ACTIVATION_KEYWORD` when the environment does not override it. */
  const DefaultActivationKeyword: string := "Ada"

  /** The alternatives of one entry, as `keyword_group.split(",")` yields them. */
  function Keywords(route: Route): seq<string> {
    Split(route.keywordGroup, ',')
  }

  /** The router's answer: the selected workflow and the keyword that selected it. */
  datatype Hit = Hit(handler: Handler, keyword: string)

  /* ---------------- routing ---------------- */

  /** The inner loop: the first keyword of one group that occurs in `text`. */
  function FirstInGroup(handler: Handler, keywords: seq<string>, text: string): (r: Option<Hit>)
    ensures r.Some? ==> r.value.handler == handler && r.value.keyword in keywords
    ensures r.Some? ==> Contains(text, r.value.keyword)
    ensures r.None? <==> forall k :: 0 <= k < |keywords| ==> !Contains(text, keywords[k])
    decreases |keywords|
  {
    if |keywords| == 0 then None
    else if Contains(text, keywords[0]) then Some(Hit(handler, keywords[0]))
    else FirstInGroup(handler, keywords[1..], text)
  }

  /** The outer loop: groups in table order, each searched in comma order. */
  function FirstKeywordIn(routes: seq<Route>, text: string): (r: Option<Hit>)
    ensures r.Some? ==> Contains(text, r.value.keyword)
    decreases |routes|
  {
    if |routes| == 0 then None
    else
      match FirstInGroup(routes[0].handler, Keywords(routes[0]), text)
      case Some(hit) => Some(hit)
      case None => FirstKeywordIn(routes[1..], text)
  }

  /** `get_first_keyword_in_prompt`: search the table against the lower-cased prompt. */
  function FirstKeywordInPrompt(prompt: string): (r: Option<Hit>)
    ensures r.None? <==> NoKeywordOccurs(Routes, Lower(prompt))
    ensures r.Some? ==> Contains(Lower(prompt), r.value.keyword)
  {
    NoMatchIff(Routes, Lower(prompt));
    FirstKeywordIn(Routes, Lower(prompt))
  }

  /** No keyword of any group occurs in `text`. */
  ghost predicate NoKeywordOccurs(routes: seq<Route>, text: string) {
    forall g, k :: 0 <= g < |routes| && 0 <= k < |Keywords(routes[g])| ==>
      !Contains(text, Keywords(routes[g])[k])
  }

  /** Keyword `k` of group `g` occurs in `text`, and no keyword of an
      earlier group, nor an earlier keyword of the same group, does. */
  ghost predicate FirstHitAt(routes: seq<Route>, text: string, g: int, k: int) {
    && 0 <= g < |routes|
    && 0 <= k < |Keywords(routes[g])|
    && Contains(text, Keywords(routes[g])[k])
    && (forall g', k' :: 0 <= g' < g && 0 <= k' < |Keywords(routes[g'])| ==>
          !Contains(text, Keywords(routes[g'])[k']))
    && (forall k' :: 0 <= k' < k ==> !Contains(text, Keywords(routes[g])[k']))
  }

  /** The inner loop returns the earliest occurring keyword of the group. */
  lemma {:induction false} FirstInGroupIsFirst(handler: Handler, keywords: seq<string>, text: string, k: int)
    requires 0 <= k < |keywords| && Contains(text, keywords[k])
    requires forall k' :: 0 <= k' < k ==> !Contains(text, keywords[k'])
    ensures FirstInGroup(handler, keywords, text) == Some(Hit(handler, keywords[k]))
    decreases k
  {
    if k > 0 {
      FirstInGroupIsFirst(handler, keywords[1..], text, k - 1);
    }
  }

  /** The router reports "no match" exactly when no keyword of any group occurs. */
  lemma {:induction false} NoMatchIff(routes: seq<Route>, text: string)
    ensures FirstKeywordIn(routes, text).None? <==> NoKeywordOccurs(routes, text)
    decreases |routes|
  {
    if |routes| > 0 {
      NoMatchIff(routes[1..], text);
      var head := FirstInGroup(routes[0].handler, Keywords(routes[0]), text);
      if head.None? {
        if NoKeywordOccurs(routes[1..], text) {
          forall g, k | 0 <= g < |routes| && 0 <= k < |Keywords(routes[g])|
            ensures !Contains(text, Keywords(routes[g])[k])
          {
            if g > 0 {
              assert routes[g] == routes[1..][g - 1];
            }
          }
        }
        if NoKeywordOccurs(routes, text) {
          forall g, k | 0 <= g < |routes[1..]| && 0 <= k < |Keywords(routes[1..][g])|
            ensures !Contains(text, Keywords(routes[1..][g])[k])
          {
            assert routes[1..][g] == routes[g + 1];
          }
        }
      }
    }
  }

  /** Whenever some keyword is the first hit in table order, the router
      returns exactly that keyword and its group's workflow. */
  lemma {:induction false} FirstHitSelected(routes: seq<Route>, text: string, g: int, k: int)
    requires FirstHitAt(routes, text, g, k)
    ensures FirstKeywordIn(routes, text) == Some(Hit(routes[g].handler, Keywords(routes[g])[k]))
    decreases g
  {
    if g == 0 {
      FirstInGroupIsFirst(routes[0].handler, Keywords(routes[0]), text, k);
    } else {
      assert FirstInGroup(routes[0].handler, Keywords(routes[0]), text).None?;
      assert routes[1..][g - 1] == routes[g];
      forall g', k' | 0 <= g' < g - 1 && 0 <= k' < |Keywords(routes[1..][g'])|
        ensures !Contains(text, Keywords(routes[1..][g'])[k'])
      {
        assert routes[1..][g'] == routes[g' + 1];
      }
      FirstHitSelected(routes[1..], text, g - 1, k);
    }
  }

  /** A returned keyword is the first hit of some group `g` at position `k`,
      and the returned workflow is that group's. */
  lemma {:induction false} MatchIsFirstHit(routes: seq<Route>, text: string) returns (g: int, k: int)
    requires FirstKeywordIn(routes, text).Some?
    ensures FirstHitAt(routes, text, g, k)
    ensures FirstKeywordIn(routes, text).value == Hit(routes[g].handler, Keywords(routes[g])[k])
  {
    NoMatchIff(routes, text);
    g, k := FirstHitIndices(routes, text);
    FirstHitSelected(routes, text, g, k);
  }

  /** When some keyword occurs, a first hit exists. */
  lemma {:induction false} FirstHitIndices(routes: seq<Route>, text: string) returns (g: int, k: int)
    requires !NoKeywordOccurs(routes, text)
    ensures FirstHitAt(routes, text, g, k)
    decreases |routes|
  {
    var kws := Keywords(routes[0]);
    if exists k0 :: 0 <= k0 < |kws| && Contains(text, kws[k0]) {
      var k0 :| 0 <= k0 < |kws| && Contains(text, kws[k0]);
      k := EarliestInGroup(kws, text, k0);
      g := 0;
    } else {
      assert !NoKeywordOccurs(routes[1..], text) by {
        var g1, k1 :| 0 <= g1 < |routes| && 0 <= k1 < |Keywords(routes[g1])| && Contains(text, Keywords(routes[g1])[k1]);
        assert g1 > 0;
        assert routes[1..][g1 - 1] == routes[g1];
      }
      var g1, k1 := FirstHitIndices(routes[1..], text);
      assert routes[1..][g1] == routes[g1 + 1];
      g, k := g1 + 1, k1;
      forall g', k' | 0 <= g' < g && 0 <= k' < |Keywords(routes[g'])|
        ensures !Contains(text, Keywords(routes[g'])[k'])
      {
        if g' > 0 {
          assert routes[1..][g' - 1] == routes[g'];
        }
      }
    }
  }

  /** The earliest keyword of a group that occurs, given that one does. */
  lemma {:induction false} EarliestInGroup(keywords: seq<string>, text: string, k0: int) returns (k: int)
    requires 0 <= k0 < |keywords| && Contains(text, keywords[k0])
    ensures 0 <= k <= k0 && Contains(text, keywords[k])
    ensures forall k' :: 0 <= k' < k ==> !Contains(text, keywords[k'])
    decreases k0
  {
    if exists k1 :: 0 <= k1 < k0 && Contains(text, keywords[k1]) {
      var k1 :| 0 <= k1 < k0 && Contains(text, keywords[k1]);
      k := EarliestInGroup(keywords, text, k1);
    } else {
      k := k0;
    }
  }

  /** Routing depends on the prompt only up to case. */
  lemma RouteIgnoresCase(prompt: string)
    ensures FirstKeywordInPrompt(prompt) == FirstKeywordInPrompt(Lower(prompt))
  {
    LowerIdempotent(prompt);
  }

  /** An occurring keyword of group `g` means the router answers with a
      group at or before `g`. */
  lemma EarlierGroupWins(routes: seq<Route>, text: string, g: int, k: int)
    requires 0 <= g < |routes| && 0 <= k < |Keywords(routes[g])|
    requires Contains(text, Keywords(routes[g])[k])
    ensures FirstKeywordIn(routes, text).Some?
    ensures exists g' :: 0 <= g' <= g && FirstKeywordIn(routes, text).value.handler == routes[g'].handler
  {
    NoMatchIff(routes, text);
    var g1, k1 := FirstHitIndices(routes, text);
    FirstHitSelected(routes, text, g1, k1);
  }
  /* ---------------- the concrete table ---------------- */

  lemma SplitConfigure()
    ensures Split("configure,configuration", ',') == ["configure", "configuration"]
  {
    assert "configure,configuration" == "configure" + [','] + "configuration";
    SplitPrefix("configure", "configuration", ',');
    SplitNoSep("configuration", ',');
  }

  lemma SplitBash()
    ensures Split("bash,browser", ',') == ["bash", "browser"]
  {
    assert "bash,browser" == "bash" + [','] + "browser";
    SplitPrefix("bash", "browser", ',');
    SplitNoSep("browser", ',');
  }

  lemma SplitHeyHi()
    ensures Split("hey,hi", ',') == ["hey", "hi"]
  {
    assert "hey,hi" == "hey" + [','] + "hi";
    SplitPrefix("hey", "hi", ',');
    SplitNoSep("hi", ',');
  }

  lemma SplitGreeting()
    ensures Split("hello,hey,hi", ',') == ["hello", "hey", "hi"]
  {
    assert "hello,hey,hi" == "hello" + [','] + "hey,hi";
    SplitPrefix("hello", "hey,hi", ',');
    SplitHeyHi();
  }

  lemma ConfigureKeywords()
    ensures Keywords(Routes[0]) == ["configure", "configuration"]
  {
    SplitConfigure();
  }

  lemma ExampleCodeKeywords()
    ensures Keywords(Routes[1]) == ["example code"]
  {
    SplitNoSep("example code", ',');
  }

  lemma ViewComponentKeywords()
    ensures Keywords(Routes[2]) == ["view component"]
  {
    SplitNoSep("view component", ',');
  }

  lemma BashKeywords()
    ensures Keywords(Routes[3]) == ["bash", "browser"]
  {
    SplitBash();
  }

  lemma ShellKeywords()
    ensures Keywords(Routes[4]) == ["shell"]
  {
    SplitNoSep("shell", ',');
  }

  lemma QuestionKeywords()
    ensures Keywords(Routes[5]) == ["question"]
  {
    SplitNoSep("question", ',');
  }

  lemma GreetingKeywords()
    ensures Keywords(Routes[6]) == ["hello", "hey", "hi"]
  {
    SplitGreeting();
  }

  lemma ExitKeywords()
    ensures Keywords(Routes[7]) == ["exit"]
  {
    SplitNoSep("exit", ',');
  }

  /** The alternatives of each entry of the table, in search order. */
  lemma RouteKeywords()
    ensures Keywords(Routes[0]) == ["configure", "configuration"]
    ensures Keywords(Routes[1]) == ["example code"]
    ensures Keywords(Routes[2]) == ["view component"]
    ensures Keywords(Routes[3]) == ["bash", "browser"]
    ensures Keywords(Routes[4]) == ["shell"]
    ensures Keywords(Routes[5]) == ["question"]
    ensures Keywords(Routes[6]) == ["hello", "hey", "hi"]
    ensures Keywords(Routes[7]) == ["exit"]
  {
    ConfigureKeywords();
    ExampleCodeKeywords();
    ViewComponentKeywords();
    BashKeywords();
    ShellKeywords();
    QuestionKeywords();
    GreetingKeywords();
    ExitKeywords();
  }

  /** No keyword of the first `n` groups occurs in `text`. */
  ghost predicate NoHitBefore(routes: seq<Route>, text: string, n: nat)
    requires n <= |routes|
  {
    forall g, k :: 0 <= g < n && 0 <= k < |Keywords(routes[g])| ==> !Contains(text, Keywords(routes[g])[k])
  }

  /** The search passes group `n` when none of its keywords occurs. */
  lemma NoHitNext(routes: seq<Route>, text: string, n: nat)
    requires n < |routes| && NoHitBefore(routes, text, n)
    requires forall k :: 0 <= k < |Keywords(routes[n])| ==> !Contains(text, Keywords(routes[n])[k])
    ensures NoHitBefore(routes, text, n + 1)
  {
  }

  /** The search passes the first two groups of the table. */
  lemma PassesToViewComponent(text: string)
    requires !Contains(text, "configure") && !Contains(text, "configuration")
    requires !Contains(text, "example code")
    ensures NoHitBefore(Routes, text, 2)
  {
    ConfigureKeywords();
    NoHitNext(Routes, text, 0);
    ExampleCodeKeywords();
    NoHitNext(Routes, text, 1);
  }

  /** The search passes the first four groups of the table. */
  lemma PassesToShell(text: string)
    requires !Contains(text, "configure") && !Contains(text, "configuration")
    requires !Contains(text, "example code") && !Contains(text, "view component")
    requires !Contains(text, "bash") && !Contains(text, "browser")
    ensures NoHitBefore(Routes, text, 4)
  {
    PassesToViewComponent(text);
    ViewComponentKeywords();
    NoHitNext(Routes, text, 2);
    BashKeywords();
    NoHitNext(Routes, text, 3);
  }

  /** "question" is searched before the greetings: a prompt that mentions
      it is never routed to small talk or to ending the conversation. */
  lemma QuestionBeforeGreeting(prompt: string)
    requires Contains(Lower(prompt), "question")
    ensures FirstKeywordInPrompt(prompt).Some?
    ensures FirstKeywordInPrompt(prompt).value.handler !in {SoftTalk, EndConversation}
  {
    QuestionKeywords();
    EarlierGroupWins(Routes, Lower(prompt), 5, 0);
    var g :| 0 <= g <= 5 && FirstKeywordInPrompt(prompt).value.handler == Routes[g].handler;
    assert g in {0, 1, 2, 3, 4, 5};
  }

  /** "shell" is searched before "question". */
  lemma ShellBeforeQuestion(prompt: string)
    requires Contains(Lower(prompt), "shell")
    ensures FirstKeywordInPrompt(prompt).Some?
    ensures FirstKeywordInPrompt(prompt).value.handler !in {QuestionAnswer, SoftTalk, EndConversation}
  {
    ShellKeywords();
    EarlierGroupWins(Routes, Lower(prompt), 4, 0);
    var g :| 0 <= g <= 4 && FirstKeywordInPrompt(prompt).value.handler == Routes[g].handler;
    assert g in {0, 1, 2, 3, 4};
  }

  /** With no keyword of an earlier group present, "question" selects the
      question workflow, whatever greeting the prompt also holds. */
  lemma QuestionRoute(prompt: string)
    requires Contains(Lower(prompt), "question")
    requires !Contains(Lower(prompt), "configure") && !Contains(Lower(prompt), "configuration")
    requires !Contains(Lower(prompt), "example code") && !Contains(Lower(prompt), "view component")
    requires !Contains(Lower(prompt), "bash") && !Contains(Lower(prompt), "browser")
    requires !Contains(Lower(prompt), "shell")
    ensures FirstKeywordInPrompt(prompt) == Some(Hit(QuestionAnswer, "question"))
  {
    var text := Lower(prompt);
    PassesToShell(text);
    ShellKeywords();
    NoHitNext(Routes, text, 4);
    QuestionKeywords();
    FirstHitSelected(Routes, text, 5, 0);
  }

  /** "hi" is the first hit when nothing searched before it occurs. */
  lemma HiIsFirstHit(text: string)
    requires Contains(text, "hi")
    requires !Contains(text, "configure") && !Contains(text, "configuration")
    requires !Contains(text, "example code") && !Contains(text, "view component")
    requires !Contains(text, "bash") && !Contains(text, "browser")
    requires !Contains(text, "shell") && !Contains(text, "question")
    requires !Contains(text, "hello") && !Contains(text, "hey")
    ensures FirstHitAt(Routes, text, 6, 2)
  {
    PassesToShell(text);
    ShellKeywords();
    NoHitNext(Routes, text, 4);
    QuestionKeywords();
    NoHitNext(Routes, text, 5);
    GreetingKeywords();
  }

  /** Matching is by substring, not by word: "hi" anywhere in the prompt,
      for instance inside "this", selects small talk when nothing searched
      earlier occurs. */
  lemma GreetingBySubstring(prompt: string)
    requires Contains(Lower(prompt), "hi")
    requires !Contains(Lower(prompt), "configure") && !Contains(Lower(prompt), "configuration")
    requires !Contains(Lower(prompt), "example code") && !Contains(Lower(prompt), "view component")
    requires !Contains(Lower(prompt), "bash") && !Contains(Lower(prompt), "browser")
    requires !Contains(Lower(prompt), "shell") && !Contains(Lower(prompt), "question")
    requires !Contains(Lower(prompt), "hello") && !Contains(Lower(prompt), "hey")
    ensures FirstKeywordInPrompt(prompt) == Some(Hit(SoftTalk, "hi"))
  {
    HiIsFirstHit(Lower(prompt));
    FirstHitSelected(Routes, Lower(prompt), 6, 2);
    GreetingKeywords();
  }

  /** "This" meets the precondition of `GreetingBySubstring`: it contains
      "hi" and no keyword searched before it. */
  lemma ThisHoldsOnlyHi()
    ensures Lower("This") == "this"
    ensures Contains("this", "hi")
    ensures !Contains("this", "configure") && !Contains("this", "configuration")
    ensures !Contains("this", "example code") && !Contains("this", "view component")
    ensures !Contains("this", "bash") && !Contains("this", "browser")
    ensures !Contains("this", "shell") && !Contains("this", "question")
    ensures !Contains("this", "hello") && !Contains("this", "hey")
  {
    assert !Contains("this", "bash") && !Contains("this", "hey");
  }

  /* ---------------- activation and dispatch ---------------- */

  /** `text_after_keyword`: the transcript after the first case-insensitive
      occurrence of `keyword`, stripped; empty when there is none. The
      result is a piece of the transcript with no whitespace at either end. */
  function TextAfterKeyword(transcript: string, keyword: string): (r: string)
    ensures IsStripped(r)
    ensures Contains(transcript, r)
  {
    match Find(Lower(transcript), Lower(keyword))
    case None =>
      ContainsAt(transcript, "", 0);
      ""
    case Some(p) =>
      TextAfterContained(transcript, p + |keyword|);
      Strip(transcript[p + |keyword|..])
  }

  lemma TextAfterContained(transcript: string, start: int)
    requires 0 <= start <= |transcript|
    ensures Contains(transcript, Strip(transcript[start..]))
  {
    StripContained(transcript[start..]);
    ContainsSuffix(transcript, start, Strip(transcript[start..]));
  }

  /** Without a case-insensitive occurrence of the keyword the command text is empty. */
  lemma TextAfterMissingKeyword(transcript: string, keyword: string)
    requires !Contains(Lower(transcript), Lower(keyword))
    ensures TextAfterKeyword(transcript, keyword) == ""
  {
  }

  /** With one, the command text is the original-case remainder after the
      first occurrence, stripped. */
  lemma TextAfterFirstOccurrence(transcript: string, keyword: string, p: int)
    requires IsFirstOccurrence(Lower(transcript), Lower(keyword), p)
    ensures p + |keyword| <= |transcript|
    ensures TextAfterKeyword(transcript, keyword) == Strip(transcript[p + |keyword|..])
  {
    FindFirstOccurrence(Lower(transcript), Lower(keyword), p);
    TextAfterFound(transcript, keyword, p);
  }

  lemma TextAfterFound(transcript: string, keyword: string, p: int)
    requires Find(Lower(transcript), Lower(keyword)) == Some(p)
    ensures TextAfterKeyword(transcript, keyword) == Strip(transcript[p + |keyword|..])
  {
  }

  /** Where the activation keyword was heard, and what follows it. */
  lemma HeardAt(transcript: string, keyword: string) returns (p: nat)
    requires Contains(Lower(transcript), Lower(keyword))
    ensures IsFirstOccurrence(Lower(transcript), Lower(keyword), p)
    ensures p + |keyword| <= |transcript|
    ensures TextAfterKeyword(transcript, keyword) == Strip(transcript[p + |keyword|..])
  {
    p := Find(Lower(transcript), Lower(keyword)).value;
    TextAfterFirstOccurrence(transcript, keyword, p);
  }

  /** The activation test of the chunked listening loop: the keyword occurs
      in the transcript, ignoring case. */
  predicate HeardActivation(transcript: string, activation: string): (r: bool)
    ensures r <==> Occurs(Lower(transcript), Lower(activation))
  {
    ContainsExists(Lower(transcript), Lower(activation));
    Contains(Lower(transcript), Lower(activation))
  }

  /** One call of a workflow with its command text. */
  datatype Dispatch = Dispatch(handler: Handler, prompt: string)

  /** `on_activation_keyword_detected`: route the text after the activation
      keyword and call at most one workflow with that text. */
  function OnActivationKeywordDetected(transcript: string, activation: string): (r: Option<Dispatch>)
    ensures r.Some? ==> r.value.prompt == TextAfterKeyword(transcript, activation)
  {
    var prompt := TextAfterKeyword(transcript, activation);
    match FirstKeywordInPrompt(prompt)
    case None => None
    case Some(hit) => Some(Dispatch(hit.handler, prompt))
  }

  /** No workflow runs exactly when no keyword occurs in the command text. */
  lemma DispatchNoneIff(transcript: string, activation: string)
    ensures OnActivationKeywordDetected(transcript, activation).None? <==>
            NoKeywordOccurs(Routes, Lower(TextAfterKeyword(transcript, activation)))
  {
    NoMatchIff(Routes, Lower(TextAfterKeyword(transcript, activation)));
  }

  /** A workflow that runs is that of the first keyword hit, group `g` at
      position `k`, in the lower-cased command text, not in the whole transcript. */
  lemma DispatchRoutesCommandText(transcript: string, activation: string) returns (g: int, k: int)
    ensures OnActivationKeywordDetected(transcript, activation).Some? ==>
              && FirstHitAt(Routes, Lower(TextAfterKeyword(transcript, activation)), g, k)
              && OnActivationKeywordDetected(transcript, activation).value.handler == Routes[g].handler
  {
    g, k := 0, 0;
    var text := Lower(TextAfterKeyword(transcript, activation));
    if FirstKeywordIn(Routes, text).Some? {
      g, k := MatchIsFirstHit(Routes, text);
    }
  }

  /** One iteration of the chunked listening loop after transcription, with
      `on_activation_keyword_detected` as the callback. */
  function ListenIteration(transcript: string, activation: string): (r: Option<Dispatch>)
    ensures !HeardActivation(transcript, activation) ==> r.None?
    ensures HeardActivation(transcript, activation) ==> r == OnActivationKeywordDetected(transcript, activation)
    ensures r.Some? ==> r.value.prompt == TextAfterKeyword(transcript, activation)
  {
    if HeardActivation(transcript, activation) then
      OnActivationKeywordDetected(transcript, activation)
    else None
  }

  /** The default activation keyword is heard whatever its case in the
      transcript. */
  lemma DefaultActivationIgnoresCase()
    ensures HeardActivation("ADA", DefaultActivationKeyword)
    ensures HeardActivation("ada", DefaultActivationKeyword)
    ensures !HeardActivation("ad", DefaultActivationKeyword)
  {
    assert Lower(DefaultActivationKeyword) == "ada";
    assert Lower("ADA") == "ada";
    ContainsAt("ada", "ada", 0);
  }

  /** A workflow runs only after the activation keyword was heard, and it is
      given the stripped original-case text after the keyword's first
      occurrence `p`. */
  lemma ListenDispatchesRemainder(transcript: string, activation: string) returns (p: nat)
    requires ListenIteration(transcript, activation).Some?
    ensures HeardActivation(transcript, activation)
    ensures IsFirstOccurrence(Lower(transcript), Lower(activation), p)
    ensures p + |activation| <= |transcript|
    ensures ListenIteration(transcript, activation).value.prompt == Strip(transcript[p + |activation|..])
  {
    p := HeardAt(transcript, activation);
  }
}
