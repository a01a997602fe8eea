/** The rule-based chat responder behind `POST /api/chat`. The message is
    stripped; an empty message gets a fixed nudge; otherwise the lower-cased
    message is checked against three keyword groups in a fixed order
    (privacy, greeting, games) and the first group with a keyword occurring
    anywhere in it chooses the reply; when none does, the stripped message is
    quoted back inside a fixed template. */
module Chat {
  import opened Text
  import opened Wrappers

  const PrivacyKeywords: seq<string> := ["privacy", "data", "secure", "safety"]
  const GreetingKeywords: seq<string> := ["hello", "hi", "hey"]
  const GameKeywords: seq<string> := ["game", "play", "minigame"]

  const EmptyReply: string := "Say something and I\U{2019}ll respond!"
  const PrivacyReply: string :=
    "In ROME," + " privacy comes first. We minimize data collection, encrypt what we must, "
    + "and give you clear controls over visibility. Ask me anything about how it works."
  const GreetingReply: string :=
    "Hey!" + " I\U{2019}m your lobby companion. Want to explore mini\U{2011}games or learn about our mission?"
  const GameReply: string :=
    "Let\U{2019}s play!" + " Try the Click Sprint or Whack\U{2011}a\U{2011}Dot in the mini\U{2011}games section."

  const FallbackOpen: string := "You said: \U{2018}"
  const FallbackClose: string := "\U{2019}. I\U{2019}m here to help you explore ROME."

  /** The reply when no keyword matches: the message between typographic
      quotes, followed by a fixed sentence. */
  function FallbackReply(msg: string): (r: string)
    ensures |r| == |FallbackOpen| + |msg| + |FallbackClose|
    ensures r[..|FallbackOpen|] == FallbackOpen
    ensures r[|FallbackOpen|..|FallbackOpen| + |msg|] == msg
    ensures r[|FallbackOpen| + |msg|..] == FallbackClose
  {
    FallbackOpen + msg + FallbackClose
  }

  /** Which of its five replies the handler gives. */
  datatype Reply = Nudge | PrivacyAnswer | GreetingAnswer | GameAnswer | Echo(msg: string)

  /** The text of each reply. */
  function ReplyText(r: Reply): string {
    match r
    case Nudge => EmptyReply
    case PrivacyAnswer => PrivacyReply
    case GreetingAnswer => GreetingReply
    case GameAnswer => GameReply
    case Echo(msg) => FallbackReply(msg)
  }

  /** The handler's reply to `message`: strip it, choose, and render. */
  function AvatarChat(message: string): string {
    ReplyText(Choose(Strip(message)))
  }

  /** The reply to an already stripped message, as the if/elif chain
      chooses it. */
  function Choose(userMsg: string): Reply {
    if userMsg == [] then Nudge
    else
      var lower := Lower(userMsg);
      if AnyIn(lower, PrivacyKeywords) then PrivacyAnswer
      else if AnyIn(lower, GreetingKeywords) then GreetingAnswer
      else if AnyIn(lower, GameKeywords) then GameAnswer
      else Echo(userMsg)
  }

  // ---------------------------------------------------------------------
  // The same responder as an explicit ordered rule table.

  /** A keyword group and the reply it selects. */
  datatype Rule = Rule(keywords: seq<string>, reply: Reply)

  const Rules: seq<Rule> := [
    Rule(PrivacyKeywords, PrivacyAnswer),
    Rule(GreetingKeywords, GreetingAnswer),
    Rule(GameKeywords, GameAnswer)
  ]

  /** The index of the first rule of `rules` with a keyword in `text`, or
      `None` when no rule has one. */
  function FirstMatch(rules: seq<Rule>, text: string): (r: Option<nat>)
    ensures r.Some? ==> r.value < |rules| && AnyIn(text, rules[r.value].keywords)
    ensures r.Some? ==> forall j :: 0 <= j < r.value ==> !AnyIn(text, rules[j].keywords)
    ensures r.None? ==> forall j :: 0 <= j < |rules| ==> !AnyIn(text, rules[j].keywords)
  {
    if rules == [] then None
    else if AnyIn(text, rules[0].keywords) then Some(0)
    else match FirstMatch(rules[1..], text)
      case None => None
      case Some(i) => Some(i + 1)
  }

  /** The reply chosen by first-match evaluation of the rule table. */
  function TableChoose(userMsg: string): Reply {
    if userMsg == [] then Nudge
    else match FirstMatch(Rules, Lower(userMsg))
      case Some(i) => Rules[i].reply
      case None => Echo(userMsg)
  }

  /** The if/elif chain and first-match evaluation of the rule table agree on
      every message. */
  lemma ChainIsFirstMatch(userMsg: string)
    ensures Choose(userMsg) == TableChoose(userMsg)
  {
    if userMsg != [] {
      var lower := Lower(userMsg);
      var m := FirstMatch(Rules, lower);
      assert Rules[0] == Rule(PrivacyKeywords, PrivacyAnswer);
      assert Rules[1] == Rule(GreetingKeywords, GreetingAnswer);
      assert Rules[2] == Rule(GameKeywords, GameAnswer);
      if AnyIn(lower, PrivacyKeywords) {
        assert m == Some(0);
      } else if AnyIn(lower, GreetingKeywords) {
        assert m == Some(1);
      } else if AnyIn(lower, GameKeywords) {
        assert m == Some(2);
      } else {
        assert m == None;
      }
    }
  }

  // ---------------------------------------------------------------------
  // Properties of the responder.

  /** Different replies have different texts, so the reply text tells which
      rule fired (and, for the fallback, which message was quoted). */
  lemma ReplyTextInjective(a: Reply, b: Reply)
    ensures ReplyText(a) == ReplyText(b) ==> a == b
  {
    var ta, tb := ReplyText(a), ReplyText(b);
    if a.Echo? && b.Echo? {
      FallbackEchoes(a.msg, b.msg);
    } else if a != b {
      assert ta[0] != tb[0] by {
        FirstChar(a);
        FirstChar(b);
      }
    }
  }

  /** The first character of each reply text. */
  lemma FirstChar(r: Reply)
    ensures |ReplyText(r)| > 0
    ensures ReplyText(r)[0] == match r
      case Nudge => 'S'
      case PrivacyAnswer => 'I'
      case GreetingAnswer => 'H'
      case GameAnswer => 'L'
      case Echo(_) => 'Y'
  {
    match r
    case Echo(m) => assert ReplyText(r)[..|FallbackOpen|] == FallbackOpen;
    case _ =>
  }

  /** The fallback quotes the stripped message verbatim, in its original case,
      and the message can be read back from it. */
  lemma FallbackEchoes(msg: string, other: string)
    ensures Contains(FallbackReply(msg), msg)
    ensures FallbackReply(msg) == FallbackReply(other) ==> msg == other
  {
    var f := FallbackReply(msg);
    SliceContained(f, |FallbackOpen|, |FallbackOpen| + |msg|);
    if f == FallbackReply(other) {
      assert |other| == |msg|;
    }
  }

  /** The text of the handler's reply determines which reply was chosen. */
  lemma TextTellsChoice(message: string, r: Reply)
    ensures AvatarChat(message) == ReplyText(r) <==> Choose(Strip(message)) == r
  {
    ReplyTextInjective(Choose(Strip(message)), r);
  }

  /** The if/elif chain, branch by branch: the nudge exactly for an empty
      message, each rule exactly when it matches and no earlier one does, the
      echo exactly when nothing matches. */
  lemma ChooseIff(userMsg: string)
    ensures var lower := Lower(userMsg);
      && (Choose(userMsg) == Nudge <==> userMsg == [])
      && (Choose(userMsg) == PrivacyAnswer <==> userMsg != [] && AnyIn(lower, PrivacyKeywords))
      && (Choose(userMsg) == GreetingAnswer <==>
            userMsg != [] && !AnyIn(lower, PrivacyKeywords) && AnyIn(lower, GreetingKeywords))
      && (Choose(userMsg) == GameAnswer <==>
            userMsg != [] && !AnyIn(lower, PrivacyKeywords) && !AnyIn(lower, GreetingKeywords)
            && AnyIn(lower, GameKeywords))
      && (Choose(userMsg) == Echo(userMsg) <==>
            userMsg != [] && !AnyIn(lower, PrivacyKeywords) && !AnyIn(lower, GreetingKeywords)
            && !AnyIn(lower, GameKeywords))
  {
  }

  /** The nudge is the reply exactly when the message is empty or all
      whitespace; no keyword is looked at in that case. */
  lemma EmptyIff(message: string)
    ensures AvatarChat(message) == EmptyReply <==> AllSpace(message)
  {
    StripEmptyIff(message);
    TextTellsChoice(message, Nudge);
    ChooseIff(Strip(message));
  }

  /** The privacy reply is given exactly when the stripped message is
      non-empty and contains a privacy keyword, whatever else it contains. */
  lemma PrivacyIff(message: string)
    ensures AvatarChat(message) == PrivacyReply <==>
      Strip(message) != [] && AnyIn(Lower(Strip(message)), PrivacyKeywords)
  {
    TextTellsChoice(message, PrivacyAnswer);
    ChooseIff(Strip(message));
  }

  /** The greeting reply is given exactly when the stripped message is
      non-empty, contains a greeting keyword and no privacy keyword. */
  lemma GreetingIff(message: string)
    ensures AvatarChat(message) == GreetingReply <==>
      var lower := Lower(Strip(message));
      Strip(message) != [] && !AnyIn(lower, PrivacyKeywords) && AnyIn(lower, GreetingKeywords)
  {
    TextTellsChoice(message, GreetingAnswer);
    ChooseIff(Strip(message));
  }

  /** The games reply is given exactly when the stripped message is non-empty,
      contains a game keyword and neither a privacy nor a greeting keyword. */
  lemma GameIff(message: string)
    ensures AvatarChat(message) == GameReply <==>
      var lower := Lower(Strip(message));
      Strip(message) != [] && !AnyIn(lower, PrivacyKeywords) && !AnyIn(lower, GreetingKeywords)
      && AnyIn(lower, GameKeywords)
  {
    TextTellsChoice(message, GameAnswer);
    ChooseIff(Strip(message));
  }

  /** The fallback is given exactly when the stripped message is non-empty and
      contains no keyword of any group. */
  lemma FallbackIff(message: string)
    ensures AvatarChat(message) == FallbackReply(Strip(message)) <==>
      var lower := Lower(Strip(message));
      Strip(message) != [] && !AnyIn(lower, PrivacyKeywords) && !AnyIn(lower, GreetingKeywords)
      && !AnyIn(lower, GameKeywords)
  {
    TextTellsChoice(message, Echo(Strip(message)));
    ChooseIff(Strip(message));
  }

  /** Every reply is the nudge, one of the three rule replies, or the fallback
      quoting the stripped message. */
  lemma ReplyIsOneOf(message: string)
    ensures var r := AvatarChat(message);
      r == EmptyReply || r == PrivacyReply || r == GreetingReply || r == GameReply
      || r == FallbackReply(Strip(message))
  {
    var c := Choose(Strip(message));
    assert c == Nudge || c == PrivacyAnswer || c == GreetingAnswer || c == GameAnswer
      || c == Echo(Strip(message));
  }

  /** Whitespace around the message changes nothing. */
  lemma StripInvariant(message: string)
    ensures AvatarChat(Strip(message)) == AvatarChat(message)
  {
    StripIdempotent(message);
  }

  /** Matching ignores ASCII case: two messages that agree once stripped and
      lower-cased get the same reply, unless both fall back, in which case each
      quotes its own text. */
  lemma CaseInsensitive(a: string, b: string)
    requires Lower(Strip(a)) == Lower(Strip(b))
    ensures AvatarChat(a) == AvatarChat(b) ||
      (AvatarChat(a) == FallbackReply(Strip(a)) && AvatarChat(b) == FallbackReply(Strip(b)))
  {
    var sa, sb := Strip(a), Strip(b);
    ChooseCaseInsensitive(sa, sb);
    assert AvatarChat(a) == ReplyText(Choose(sa)) && AvatarChat(b) == ReplyText(Choose(sb));
  }

  lemma ChooseCaseInsensitive(sa: string, sb: string)
    requires Lower(sa) == Lower(sb)
    ensures Choose(sa) == Choose(sb) || (Choose(sa) == Echo(sa) && Choose(sb) == Echo(sb))
  {
    assert |sa| == |Lower(sa)| == |sb|;
  }

  // ---------------------------------------------------------------------
  // Worked examples. Each example about the handler takes the message as a
  // parameter fixed by its requires, and a companion lemma evaluates the
  // if/elif chain on the stripped text, so that the verifier unfolds the
  // definitions only as far as each step needs.

  /** A greeting keyword appears too, but the privacy rule comes first. */
  lemma PrivacyBeforeGreeting(m: string)
    requires m == "hi there, is my data secure?"
    ensures AvatarChat(m) == PrivacyReply
  {
    StripOf([], m, []);
    assert [] + m + [] == m;
    ChoosePrivacyBeforeGreeting();
  }

  lemma ChoosePrivacyBeforeGreeting()
    ensures Choose("hi there, is my data secure?") == PrivacyAnswer
  {
    var l := Lower("hi there, is my data secure?");
    assert l[16..20] == PrivacyKeywords[1];
    SliceContained(l, 16, 20);
  }

  /** Upper case matches: "HELLO" is a greeting. */
  lemma UpperCaseGreeting(m: string)
    requires m == "HELLO"
    ensures AvatarChat(m) == GreetingReply
  {
    StripOf([], m, []);
    assert [] + m + [] == m;
    ChooseUpperCaseGreeting();
  }

  lemma ChooseUpperCaseGreeting()
    ensures Choose("HELLO") == GreetingAnswer
  {
    HelloLowered("HELLO");
    AbsentCharNotContained("hello", "privacy", 0);
    AbsentCharNotContained("hello", "data", 0);
    AbsentCharNotContained("hello", "secure", 0);
    AbsentCharNotContained("hello", "safety", 0);
    assert Contains("hello", GreetingKeywords[0]);
  }

  /** Lowering "HELLO" gives "hello". */
  lemma HelloLowered(m: string)
    requires m == "HELLO"
    ensures Lower(m) == "hello"
  {
    assert LowerChar('H') == 'h' && LowerChar('E') == 'e' && LowerChar('L') == 'l' && LowerChar('O') == 'o';
    assert Lower(m) == [LowerChar('H'), LowerChar('E'), LowerChar('L'), LowerChar('L'), LowerChar('O')];
  }

  /** Matching is on substrings, not words: "hi" inside "this" is a greeting,
      once the surrounding blanks are stripped. */
  lemma SubstringGreeting(m: string)
    requires m == "  this  "
    ensures AvatarChat(m) == GreetingReply
  {
    StripOf("  ", "this", "  ");
    assert "  " + "this" + "  " == m;
    ChooseSubstringGreeting();
  }

  lemma ChooseSubstringGreeting()
    ensures Choose("this") == GreetingAnswer
  {
    assert Lower("this") == "this";
    AbsentCharNotContained("this", "privacy", 0);
    AbsentCharNotContained("this", "data", 0);
    AbsentCharNotContained("this", "secure", 1);
    AbsentCharNotContained("this", "safety", 1);
    assert Contains("this", GreetingKeywords[1]);
  }

  /** No keyword in it: the message comes back verbatim. */
  lemma FallbackExample(m: string)
    requires m == "what is ROME"
    ensures AvatarChat(m) == FallbackReply(m)
    ensures Contains(AvatarChat(m), m)
  {
    StripOf([], m, []);
    assert [] + m + [] == m;
    ChooseFallbackExample();
    FallbackEchoes(m, m);
  }

  lemma ChooseFallbackExample()
    ensures Choose("what is ROME") == Echo("what is ROME")
  {
    assert Lower("what is ROME") == "what is rome";
    NoPrivacyInExample("what is rome");
    NoGreetingInExample("what is rome");
    NoGameInExample("what is rome");
  }

  lemma NoPrivacyInExample(l: string)
    requires l == "what is rome"
    ensures !AnyIn(l, PrivacyKeywords)
  {
    AbsentCharNotContained(l, "privacy", 0);
    AbsentCharNotContained(l, "data", 0);
    AbsentCharNotContained(l, "secure", 3);
    AbsentCharNotContained(l, "safety", 2);
  }

  lemma NoGreetingInExample(l: string)
    requires l == "what is rome"
    ensures !AnyIn(l, GreetingKeywords)
  {
    AbsentCharNotContained(l, "hello", 2);
    NoHiInExample(l);
    AbsentCharNotContained(l, "hey", 2);
  }

  lemma NoGameInExample(l: string)
    requires l == "what is rome"
    ensures !AnyIn(l, GameKeywords)
  {
    AbsentCharNotContained(l, "game", 0);
    AbsentCharNotContained(l, "play", 0);
    AbsentCharNotContained(l, "minigame", 4);
  }

  /** "hi" is not in the example: its only 'h' is followed by 'a'. */
  lemma NoHiInExample(l: string)
    requires l == "what is rome"
    ensures !Contains(l, "hi")
  {
    ContainsIff(l, "hi");
    forall i: nat | i + 2 <= |l| ensures !OccursAt(l, "hi", i) {
      assert l[i..i + 2][0] == l[i] && l[i..i + 2][1] == l[i + 1];
    }
  }

  /** The empty message and a whitespace-only one both get the nudge. */
  lemma EmptyExamples(m: string)
    requires m == "" || m == " \t\n "
    ensures AvatarChat(m) == EmptyReply
  {
    EmptyIff(m);
  }
}
