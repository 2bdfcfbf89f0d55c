/**
 The response policy of the ManoSakhi support chatbot: the keyword crisis
 check, the prompt sent to the hosted text generator, the choice between the
 safety message, the generated text and the apology, and the chat transcript
 a session appends to.

 The hosted generator is a parameter `generate: string -> Outcome`: it maps
 the prompt to the text it returns, or to `Failure` when the call raises.
 */
module ModelEng {
  import opened Text

  // ------------------------------------------------------------ crisis check

  /** The keywords whose presence, after lower-casing, marks a message as a crisis. */
  const Keywords: seq<string> :=
    ["suicide", "kill myself", "end my life", "self harm", "cut myself", "die"]

  /** `any(k in text for k in keys)`, trying the keys in order: true exactly
      when some key occurs in the text. */
  function AnyContains(keys: seq<string>, text: string): (b: bool)
    ensures b <==> exists k :: k in keys && IsSubstring(k, text)
  {
    if keys == [] then
      false
    else
      assert forall k :: k in keys <==> k == keys[0] || k in keys[1..];
      Contains(text, keys[0]) || AnyContains(keys[1..], text)
  }

  /** `crisis_check`: lower-case the text and look for any keyword in it. A
      text is a crisis exactly when one of the keywords occurs in its
      lower-cased form. */
  function CrisisCheck(text: string): (b: bool)
    ensures b <==> exists k :: k in Keywords && IsSubstring(k, Lower(text))
  {
    AnyContains(Keywords, Lower(text))
  }

  /** Lower-casing the text first does not change the verdict. */
  lemma {:induction false} CrisisOfLower(s: string)
    ensures CrisisCheck(Lower(s)) == CrisisCheck(s)
  {
    LowerIdempotent(s);
  }

  /** Changing the case of any ASCII letters does not change the verdict. */
  lemma {:induction false} CrisisCaseInsensitive(s: string, t: string)
    requires SameUpToCase(s, t)
    ensures CrisisCheck(s) == CrisisCheck(t)
  {
    SameUpToCaseIffLowerEqual(s, t);
  }

  /** Text put before or after a crisis message leaves it a crisis message. */
  lemma {:induction false} CrisisMonotone(s: string, a: string, b: string)
    requires CrisisCheck(s)
    ensures CrisisCheck(a + s + b)
  {
    var k :| k in Keywords && IsSubstring(k, Lower(s));
    SubstringExtend(k, Lower(s), Lower(a), Lower(b));
    LowerConcat(a + s, b);
    LowerConcat(a, s);
  }

  /** Every text holding the letters "die" anywhere, whatever their case, is a
      crisis: "diet", "studied" and "soldier" included. */
  lemma {:induction false} DieAnywhereIsCrisis(a: string, b: string)
    ensures CrisisCheck(a + "die" + b)
  {
    assert OccursAt("die", Lower("die"), 0);
    CrisisMonotone("die", a, b);
  }

  /** "diet" is a crisis message. */
  lemma DietIsCrisis()
    ensures CrisisCheck("diet")
  {
    DieAnywhereIsCrisis("", "t");
    assert "" + "die" + "t" == "diet";
  }

  /** "I studied all night" is a crisis message. */
  lemma StudiedIsCrisis()
    ensures CrisisCheck("I studied all night")
  {
    DieAnywhereIsCrisis("I stu", "d all night");
    assert "I stu" + "die" + "d all night" == "I studied all night";
  }

  /** Upper case does not hide a keyword: "I want to DIE" is a crisis message. */
  lemma ShoutedDieIsCrisis()
    ensures CrisisCheck("I want to DIE")
  {
    DieAnywhereIsCrisis("I want to ", "");
    assert "I want to " + "die" + "" == "I want to die";
    CrisisCaseInsensitive("I want to die", "I want to DIE");
  }

  /** Not every text is a crisis: "hi" is too short to hold any keyword. */
  lemma GreetingIsNotCrisis()
    ensures !CrisisCheck("hi")
  {
    assert Lower("hi") == "hi";
    forall k | k in Keywords ensures !IsSubstring(k, "hi") {
      assert |k| > 2;
    }
  }

  // ----------------------------------------------------------------- replies

  /** What the hosted generator does with one prompt: return text, or raise. */
  datatype Outcome = Success(text: string) | Failure

  /** The reply to a crisis message, given without calling the generator:
      encouragement, the two helpline lines, and a closing line. */
  const SafetyMessage: string := SafetyOpening + IndiaHelpline + GlobalHelpline + "You are not alone."

  const SafetyOpening: string :=
    "I'm really glad you reached out. What you're feeling matters.\n\n"
    + "Please consider speaking to a trusted person or professional right now.\n\n"

  const IndiaHelpline: string := "\U{1F4DE} **India Helpline:** " + IndiaHelplineNumber + "\n"

  const GlobalHelpline: string := "\U{1F30D} **Global:** " + HelplineDirectory + "\n\n"

  const IndiaHelplineNumber: string := "9152987821"

  const HelplineDirectory: string := "https://findahelpline.com"

  /** The reply when the generator call raises. */
  const Apology: string :=
    "I'm here with you, " + "but I'm having trouble responding right now. " + "Please try again in a moment."

  /** The instruction lines that open every prompt. */
  const Instruction: string :=
    "You are a kind, empathetic mental health support chatbot.\n"
    + "Respond only in simple, supportive English.\n"
    + "Do not give medical advice.\n\n"

  /** The prompt for one message: the instruction, a "User: " line holding
      the message as typed, then "Assistant:" on a line of its own. */
  function Prompt(userInput: string): (p: string)
    ensures |p| == |Instruction| + 6 + |userInput| + 11
    ensures p[..|Instruction|] == Instruction
    ensures OccursAt("User: ", p, |Instruction|)
    ensures OccursAt(userInput, p, |Instruction| + 6)
    ensures p[|p| - 11..] == "\nAssistant:"
  {
    Instruction + "User: " + userInput + "\nAssistant:"
  }

  /** Different messages give different prompts: the message is carried verbatim. */
  lemma {:induction false} PromptInjective(u: string, v: string)
    requires Prompt(u) == Prompt(v)
    ensures u == v
  {
    var n := |Instruction| + 6;
    assert Prompt(u)[n..n + |u|] == u;
    assert Prompt(v)[n..n + |v|] == v;
  }

  /** `chat_with_ai`: the safety message for a crisis; otherwise the generator's
      text for the prompt with its whitespace stripped, or the apology when
      the call fails. */
  function ChatWithAi(userInput: string, generate: string -> Outcome): (reply: string)
    ensures CrisisCheck(userInput) ==> reply == SafetyMessage
    ensures !CrisisCheck(userInput) && generate(Prompt(userInput)).Failure? ==> reply == Apology
    ensures !CrisisCheck(userInput) && generate(Prompt(userInput)).Success? ==>
              IsTrimOf(reply, generate(Prompt(userInput)).text) && IsStripped(reply)
  {
    if CrisisCheck(userInput) then
      SafetyMessage
    else
      match generate(Prompt(userInput))
      case Success(text) => Strip(text)
      case Failure => Apology
  }

  /** The safety message gives the Indian helpline number. */
  lemma SafetyMessageHasIndiaHelpline()
    ensures IsSubstring("9152987821", SafetyMessage)
  {
    var number := IndiaHelplineNumber;
    var before, after := SafetyOpening + "\U{1F4DE} **India Helpline:** ", "\n" + GlobalHelpline + "You are not alone.";
    assert OccursAt(number, number, 0);
    SubstringExtend(number, number, before, after);
    assert before + number + after == SafetyMessage;
  }

  /** The safety message gives the global helpline directory. */
  lemma SafetyMessageHasHelplineDirectory()
    ensures IsSubstring("https://findahelpline.com", SafetyMessage)
  {
    var url := HelplineDirectory;
    var before, after := SafetyOpening + IndiaHelpline + "\U{1F30D} **Global:** ", "\n\n" + "You are not alone.";
    assert OccursAt(url, url, 0);
    SubstringExtend(url, url, before, after);
    assert before + url + after == SafetyMessage;
  }

  /** A crisis reply is the same whatever the generator would do: it is not consulted. */
  lemma CrisisIgnoresGenerator(userInput: string, g1: string -> Outcome, g2: string -> Outcome)
    requires CrisisCheck(userInput)
    ensures ChatWithAi(userInput, g1) == ChatWithAi(userInput, g2) == SafetyMessage
  {
  }

  /** Otherwise the generator is consulted on the prompt for the message and nothing else. */
  lemma GeneratorSeesOnlyPrompt(userInput: string, g1: string -> Outcome, g2: string -> Outcome)
    requires g1(Prompt(userInput)) == g2(Prompt(userInput))
    ensures ChatWithAi(userInput, g1) == ChatWithAi(userInput, g2)
  {
  }

  /** A generated reply is already stripped: stripping it again changes nothing. */
  lemma GeneratedReplyStable(userInput: string, generate: string -> Outcome)
    requires !CrisisCheck(userInput) && generate(Prompt(userInput)).Success?
    ensures Strip(ChatWithAi(userInput, generate)) == ChatWithAi(userInput, generate)
    ensures ChatWithAi(userInput, generate) == Strip(generate(Prompt(userInput)).text)
  {
    StripOfStripped(ChatWithAi(userInput, generate));
  }

  /** The apology has no whitespace at its ends. */
  lemma ApologyIsStripped()
    ensures IsStripped(Apology)
  {
    assert Apology[0] == "I'm here with you, "[0];
    assert Apology[|Apology| - 1] == "Please try again in a moment."[28];
  }

  /** The replies `chat_with_ai` can give to a message: the safety message for
      a crisis; otherwise any text without whitespace at its ends, the
      apology among them. */
  ghost predicate PossibleReply(userInput: string, reply: string)
  {
    if CrisisCheck(userInput) then reply == SafetyMessage else IsStripped(reply)
  }

  /** Every reply is a possible one. */
  lemma ReplyIsPossible(userInput: string, generate: string -> Outcome)
    ensures PossibleReply(userInput, ChatWithAi(userInput, generate))
  {
    ApologyIsStripped();
  }

  /** Every possible reply is given by some generator: for a message that is
      not a crisis, one that fails for the apology and otherwise one that
      returns the reply itself. */
  lemma {:induction false} PossibleReplyIsGiven(userInput: string, reply: string)
    requires PossibleReply(userInput, reply)
    ensures ChatWithAi(userInput, _ => if reply == Apology then Failure else Success(reply)) == reply
  {
    if !CrisisCheck(userInput) && reply != Apology {
      StripOfStripped(reply);
    }
  }

  /** A generator that answers with whitespace only yields an empty reply. */
  lemma {:induction false} BlankGenerationGivesEmptyReply(userInput: string, blank: string)
    requires !CrisisCheck(userInput) && AllSpace(blank)
    ensures ChatWithAi(userInput, _ => Success(blank)) == ""
  {
    StripEmptyIffAllSpace(blank);
  }

  /** For "hi": a failing generator gives the apology, and one that answers
      with a blank line gives an empty reply. */
  lemma GreetingReplies()
    ensures ChatWithAi("hi", _ => Failure) == Apology
    ensures ChatWithAi("hi", _ => Success(" \n")) == ""
  {
    GreetingIsNotCrisis();
    BlankGenerationGivesEmptyReply("hi", " \n");
  }

  // -------------------------------------------------------------- transcript

  datatype Role = User | Bot

  /** One entry of the chat history: who spoke, and what. */
  datatype Turn = Turn(role: Role, text: string)

  /** `user_input.strip()` is truthy: the message is not all whitespace. */
  predicate HasText(userInput: string): (b: bool)
    ensures b <==> !AllSpace(userInput)
  {
    StripEmptyIffAllSpace(userInput);
    Strip(userInput) != []
  }

  /** A message that was sent, followed by the reply it got. */
  ghost predicate IsExchange(u: Turn, b: Turn)
  {
    u.role == User && !AllSpace(u.text) && b.role == Bot && PossibleReply(u.text, b.text)
  }

  /** The `k`-th exchange of `h`: the turns at `2k` and `2k + 1`. */
  ghost predicate ExchangeAt(h: seq<Turn>, k: nat)
  {
    2 * k + 1 < |h| && IsExchange(h[2 * k], h[2 * k + 1])
  }

  /** A chat history made of whole exchanges, as sends build it from the
      empty one. */
  ghost predicate IsTranscript(h: seq<Turn>)
  {
    |h| % 2 == 0 && forall k: nat :: k < |h| / 2 ==> ExchangeAt(h, k)
  }

  /** The histories sends build from the empty one: each is a history so
      built followed by one more exchange. */
  ghost predicate BuiltBySends(h: seq<Turn>)
    decreases |h|
  {
    h == [] || (|h| >= 2 && BuiltBySends(h[..|h| - 2]) && IsExchange(h[|h| - 2], h[|h| - 1]))
  }

  /** A transcript without its last exchange is a transcript, and that
      exchange is well formed. */
  lemma TranscriptPrefix(h: seq<Turn>)
    requires IsTranscript(h) && |h| >= 2
    ensures IsTranscript(h[..|h| - 2]) && IsExchange(h[|h| - 2], h[|h| - 1])
  {
    var p := h[..|h| - 2];
    forall k: nat | k < |p| / 2 ensures ExchangeAt(p, k) {
      assert ExchangeAt(h, k);
    }
    assert ExchangeAt(h, |h| / 2 - 1);
  }

  /** Every transcript is built by sends. */
  lemma {:induction false} TranscriptIsBuilt(h: seq<Turn>)
    requires IsTranscript(h)
    ensures BuiltBySends(h)
    decreases |h|
  {
    if h != [] {
      TranscriptPrefix(h);
      TranscriptIsBuilt(h[..|h| - 2]);
    }
  }

  /** Every history built by sends is a transcript. */
  lemma {:induction false} BuiltIsTranscript(h: seq<Turn>)
    requires BuiltBySends(h)
    ensures IsTranscript(h)
    decreases |h|
  {
    if h != [] {
      var p, u, b := h[..|h| - 2], h[|h| - 2], h[|h| - 1];
      BuiltIsTranscript(p);
      assert u == Turn(User, u.text) && b == Turn(Bot, b.text);
      assert h == p + [u, b];
      TranscriptExtend(p, u.text, b.text);
    }
  }

  /** The transcript invariant holds of exactly the histories sends build. */
  lemma TranscriptIffBuilt(h: seq<Turn>)
    ensures IsTranscript(h) <==> BuiltBySends(h)
  {
    if IsTranscript(h) {
      TranscriptIsBuilt(h);
    }
    if BuiltBySends(h) {
      BuiltIsTranscript(h);
    }
  }

  /** A transcript alternates user and bot turns, starting with the user. */
  lemma TranscriptAlternates(h: seq<Turn>)
    requires IsTranscript(h)
    ensures forall i :: 0 <= i < |h| ==> h[i].role == (if i % 2 == 0 then User else Bot)
  {
    forall i | 0 <= i < |h|
      ensures h[i].role == (if i % 2 == 0 then User else Bot)
    {
      var k := i / 2;
      assert ExchangeAt(h, k);
    }
  }

  /** The crisis verdict on a user turn decides the bot turn after it. */
  lemma TranscriptCrisisAnswered(h: seq<Turn>, i: nat)
    requires IsTranscript(h) && i < |h| && h[i].role == User && CrisisCheck(h[i].text)
    ensures i + 1 < |h| && h[i + 1] == Turn(Bot, SafetyMessage)
  {
    TranscriptAlternates(h);
    assert ExchangeAt(h, i / 2);
  }

  /** Appending a sent message and its reply keeps a transcript a transcript. */
  lemma TranscriptExtend(h: seq<Turn>, userInput: string, reply: string)
    requires IsTranscript(h) && !AllSpace(userInput) && PossibleReply(userInput, reply)
    ensures IsTranscript(h + [Turn(User, userInput), Turn(Bot, reply)])
  {
    var h' := h + [Turn(User, userInput), Turn(Bot, reply)];
    forall k: nat | k < |h'| / 2 ensures ExchangeAt(h', k) {
      if k < |h| / 2 {
        assert ExchangeAt(h, k);
        assert h'[2 * k] == h[2 * k] && h'[2 * k + 1] == h[2 * k + 1];
      } else {
        assert 2 * k == |h|;
      }
    }
  }

  /** The session: its chat history, kept across the page's reruns. */
  class Session {
    var chatHistory: seq<Turn>

    ghost predicate Valid()
      reads this
    {
      IsTranscript(chatHistory)
    }

    /** A new session starts with an empty history. */
    constructor ()
      ensures Valid() && chatHistory == []
    {
      chatHistory := [];
    }

    /** A press of the send button: with text other than whitespace, the
        message and then its reply are appended; otherwise nothing changes. */
    method Send(sendClicked: bool, userInput: string, generate: string -> Outcome)
      requires Valid()
      modifies this
      ensures Valid()
      ensures sendClicked && HasText(userInput) ==>
                chatHistory == old(chatHistory)
                               + [Turn(User, userInput), Turn(Bot, ChatWithAi(userInput, generate))]
      ensures !(sendClicked && HasText(userInput)) ==> chatHistory == old(chatHistory)
    {
      if sendClicked && HasText(userInput) {
        var reply := ChatWithAi(userInput, generate);
        ReplyIsPossible(userInput, generate);
        TranscriptExtend(chatHistory, userInput, reply);
        chatHistory := chatHistory + [Turn(User, userInput)];
        chatHistory := chatHistory + [Turn(Bot, reply)];
        assert chatHistory == old(chatHistory) + [Turn(User, userInput), Turn(Bot, reply)];
      }
    }
  }
}
