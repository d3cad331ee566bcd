/**
 * The trivia bot itself: one pass of the listen loop of `main_loop` as a
 * pure step over the knowledge index, and the bot object whose methods
 * update the index and the stream of outbound chat texts in place.
 */
module GamesBot {
  import opened Wrappers
  import opened Text
  import opened Decimal
  import opened Signature
  import opened AnagramIndex
  import opened Recognizers
  import opened Solver

  /** `games_bot_nick`: the only sender whose messages the bot reads. */
  const GamesBotNick: string := "\U{2022}GamesBot\U{2022}"

  /** The acknowledgement sent after a word is learnt. */
  const LearntText: string := "New word learnt."

  const ThanksText: string := " Thanks "

  /** `s.replace(' ', '')`: the text without its spaces, in order. */
  function RemoveSpaces(s: string): (r: string)
    ensures ' ' !in r
    ensures multiset(r) == multiset(s)[' ' := 0]
    ensures ' ' !in s ==> r == s
  {
    if s == [] then []
    else
      assert s == [s[0]] + s[1..];
      (if s[0] == ' ' then [] else [s[0]]) + RemoveSpaces(s[1..])
  }

  /** The thanks sent when another player reveals a word. */
  function ThanksMessage(nick: string): string {
    LearntText + ThanksText + nick
  }

  /** A `numbers` capture whose operator is `/` and whose divisor is zero. */
  predicate DividesByZero(c: Capture) {
    c.Numbers? && c.op == '/' && AllDigits(c.num2) && ParseNat(c.num2) == 0
  }

  /** What one inbound chat message does: the index after it and the texts sent, in order. */
  datatype Outcome = Outcome(index: Index, sent: seq<string>)

  /**
   * The handler of a recognised capture: a `numbers` question is answered;
   * an `anagrams` question is answered with every stored word of the same
   * signature; a revealed word is learnt and acknowledged, except that the
   * bot does not thank itself. Division by zero raises instead.
   */
  function Respond(index: Index, ownNick: string, c: Capture): (r: Result<Outcome, Fault>)
    requires ValidCapture(c)
    ensures r.Failure? <==> DividesByZero(c)
    ensures r.Success? && r.value.index != index ==>
              exists w :: ValidWord(w) && r.value.index == Learn(index, w)
  {
    match c
    case Numbers(a, op, b) =>
      (match SolveNumbers(a, op, b)
       case Success(t) => Success(Outcome(index, [t]))
       case Failure(e) => Failure(e))
    case Anagrams(x) =>
      (match Lookup(index, RemoveSpaces(x))
       case None => Success(Outcome(index, []))
       case Some(words) => Success(Outcome(index, words)))
    case NoOne(w) => Success(Outcome(Learn(index, w), [LearntText]))
    case OtherUser(n, w) =>
      Success(Outcome(Learn(index, w), if n == ownNick then [] else [ThanksMessage(n)]))
  }

  /**
   * One pass of the listen loop for a chat message `text` from `sender`:
   * messages from anyone but the game host and texts no recognizer matches
   * are ignored; the first recognizer that matches picks the handler.
   * Division by zero raises, which ends the loop.
   */
  function Step(index: Index, ownNick: string, sender: string, text: string): (r: Result<Outcome, Fault>)
    ensures r.Failure? <==> sender == GamesBotNick && Dispatch(text).Some? && DividesByZero(Dispatch(text).value)
    ensures r.Success? && r.value.index != index ==>
              exists w :: ValidWord(w) && r.value.index == Learn(index, w)
  {
    if sender != GamesBotNick then Success(Outcome(index, []))
    else
      DispatchValid(text);
      match Dispatch(text)
      case None => Success(Outcome(index, []))
      case Some(c) => Respond(index, ownNick, c)
  }

  /** Messages from other senders, and texts no recognizer matches, change nothing and send nothing. */
  lemma StepIgnores(index: Index, ownNick: string, sender: string, text: string)
    requires sender != GamesBotNick || Dispatch(text).None?
    ensures Step(index, ownNick, sender, text) == Success(Outcome(index, []))
  {
  }

  /** A `numbers` question gets exactly one answer: the operation's value, as `str` writes it. */
  lemma StepNumbers(index: Index, ownNick: string, text: string, a: string, op: char, b: string)
    requires Dispatch(text) == Some(Numbers(a, op, b)) && !DividesByZero(Numbers(a, op, b))
    ensures ValidNumbers(a, op, b)
    ensures var r := Step(index, ownNick, GamesBotNick, text);
      r.Success? && r.value.index == index && |r.value.sent| == 1 &&
      Success(ParseInt(r.value.sent[0])) == Apply(ParseNat(a), op, ParseNat(b))
  {
    DispatchValid(text);
    SolveNumbersCorrect(a, op, b);
  }

  /**
   * An `anagrams` question sends the stored words of its letters' signature,
   * in stored order, and changes nothing. In a consistent index these are
   * exactly the stored anagrams of the letters (spaces removed).
   */
  lemma StepAnagrams(index: Index, ownNick: string, text: string, x: string)
    requires Dispatch(text) == Some(Anagrams(x))
    ensures var r := Step(index, ownNick, GamesBotNick, text);
      r.Success? && r.value.index == index &&
      r.value.sent == (if Sig(RemoveSpaces(x)) in index then index[Sig(RemoveSpaces(x))] else [])
    ensures Consistent(index) ==>
      var sent := Step(index, ownNick, GamesBotNick, text).value.sent;
      (forall w :: w in sent ==> multiset(w) == multiset(x)[' ' := 0]) &&
      (forall k, w :: k in index && w in index[k] && multiset(w) == multiset(x)[' ' := 0] ==> w in sent)
  {
    var letters := RemoveSpaces(x);
    if Consistent(index) {
      LookupSound(index, letters);
      forall k, w | k in index && w in index[k] && multiset(w) == multiset(x)[' ' := 0]
        ensures w in Step(index, ownNick, GamesBotNick, text).value.sent
      {
        LookupComplete(index, letters, k, w);
      }
    }
  }

  /** `no_one` learns the word and acknowledges it. */
  lemma StepNoOne(index: Index, ownNick: string, text: string, w: string)
    requires Dispatch(text) == Some(NoOne(w))
    ensures Step(index, ownNick, GamesBotNick, text) == Success(Outcome(Learn(index, w), [LearntText]))
  {
  }

  /**
   * `other_user` learns the word and thanks the player, but sends nothing
   * when the player is the bot itself; the word is learnt either way.
   */
  lemma StepOtherUser(index: Index, ownNick: string, text: string, n: string, w: string)
    requires Dispatch(text) == Some(OtherUser(n, w))
    ensures var r := Step(index, ownNick, GamesBotNick, text);
      r.Success? && r.value.index == Learn(index, w) &&
      (n == ownNick ==> r.value.sent == []) &&
      (n != ownNick ==> r.value.sent == [LearntText + " Thanks " + n])
  {
  }

  /** No message breaks the index invariant, and none makes the bot forget a word. */
  lemma StepKeepsIndex(index: Index, ownNick: string, sender: string, text: string)
    requires Step(index, ownNick, sender, text).Success?
    ensures var i := Step(index, ownNick, sender, text).value.index;
      (Consistent(index) ==> Consistent(i)) &&
      forall k :: k in index ==> k in i && index[k] <= i[k]
  {
    var r := Step(index, ownNick, sender, text);
    if r.value.index != index {
      var w :| ValidWord(w) && r.value.index == Learn(index, w);
      LearnNeverForgets(index, w);
      if Consistent(index) {
        LearnConsistent(index, w);
      }
    }
  }

  /** The arithmetic example: `14 + 28` is answered with `42`, and only that. */
  lemma ExampleMathematics(index: Index, ownNick: string)
    ensures Step(index, ownNick, GamesBotNick, "Question 3 of 20. Mathematics: What is 14 + 28 =") ==
            Success(Outcome(index, ["42"]))
  {
    var s := "Question 3 of 20. Mathematics: What is 14 + 28 =";
    MathematicsText();
    DispatchNumbers(s, "3", "20", '.', "14", '+', "28");
    FourteenPlusTwentyEight();
  }

  lemma MathematicsText()
    ensures "Question 3 of 20. Mathematics: What is 14 + 28 =" == NumbersText("3", "20", '.', "14", '+', "28")
  {
    MathematicsPieces();
    assert QuestionText("3", "20", '.') == "Question 3 of 20.";
    assert ExpressionText("14", '+', "28") == "14 + 28 =";
  }

  lemma MathematicsPieces()
    ensures "Question 3 of 20. Mathematics: What is 14 + 28 =" == "Question 3 of 20." + " Mathematics: What is " + "14 + 28 ="
  {
  }

  lemma FourteenPlusTwentyEight()
    ensures SolveNumbers("14", '+', "28") == Success("42")
  {
    assert ParseNat("14") == 14 by { assert "14"[..1] == "1"; }
    assert ParseNat("28") == 28 by { assert "28"[..1] == "2"; }
    assert NatToString(42) == "42" by { assert NatToString(42) == NatToString(4) + [DigitChar(2)]; }
  }

  /** The signature of `PLANET`. */
  lemma PlanetSignature()
    ensures Sig("PLANET") == "AELNPT"
  {
    PlanetKeySorted();
    PlanetKeyAnagram();
    SortedUnique(Sig("PLANET"), "AELNPT");
  }

  lemma PlanetKeySorted()
    ensures Sorted("AELNPT")
  {
  }

  lemma PlanetKeyAnagram()
    ensures multiset("PLANET") == multiset("AELNPT")
  {
    PlanetLetters();
    KeyLetters();
  }

  lemma PlanetLetters()
    ensures multiset("PLANET") == multiset{'A', 'E', 'L', 'N', 'P', 'T'}
  {
  }

  lemma KeyLetters()
    ensures multiset("AELNPT") == multiset{'A', 'E', 'L', 'N', 'P', 'T'}
  {
  }

  /** The learning example: an unknown word revealed by nobody is stored under its signature. */
  lemma ExampleNoOneGotThat(index: Index, ownNick: string)
    requires "AELNPT" !in index
    ensures Step(index, ownNick, GamesBotNick, "No one got that. The correct answer is 'PLANET'") ==
            Success(Outcome(index["AELNPT" := ["PLANET"]], ["New word learnt."]))
  {
    var s := "No one got that. The correct answer is 'PLANET'";
    NoOneGotThatText();
    DispatchNoOne(s, '.', "PLANET");
    StepNoOne(index, ownNick, s, "PLANET");
    LearnPlanet(index);
  }

  lemma NoOneGotThatText()
    ensures "No one got that. The correct answer is 'PLANET'" == NoOneText('.', "PLANET")
  {
    NoOneGotThatPieces();
    assert NoOneLit + ['.'] == "No one got that.";
    assert AnswerIsLit + QuotedText("PLANET") == " The correct answer is 'PLANET'";
  }

  lemma NoOneGotThatPieces()
    ensures "No one got that. The correct answer is 'PLANET'" == "No one got that." + " The correct answer is 'PLANET'"
  {
  }

  lemma BobGotItText()
    ensures "bob got the correct answer 'PLANET' in 5 seconds" == OtherUserText("bob", "PLANET", "5")
  {
    BobGotItPieces();
    assert GotLit + QuotedText("PLANET") == " got the correct answer 'PLANET'";
    assert SecondsText("5") == " in 5 seconds";
  }

  lemma BobGotItPieces()
    ensures "bob got the correct answer 'PLANET' in 5 seconds" == "bob" + " got the correct answer 'PLANET'" + " in 5 seconds"
  {
    BobGotItHead();
    BobGotItNick();
  }

  lemma BobGotItHead()
    ensures "bob got the correct answer 'PLANET' in 5 seconds" == "bob got the correct answer 'PLANET'" + " in 5 seconds"
  {
  }

  lemma BobGotItNick()
    ensures "bob got the correct answer 'PLANET'" == "bob" + " got the correct answer 'PLANET'"
  {
  }

  lemma BobGotIt()
    ensures OtherUserAt("bob got the correct answer 'PLANET' in 5 seconds", "bob", "PLANET", "5")
  {
    BobGotItText();
    var t := OtherUserText("bob", "PLANET", "5");
    assert At(t, 0, t);
    assert ValidNick("bob") && ValidWord("PLANET") && ValidSeconds("5");
  }

  /** Learning a word of unknown signature adds exactly its one-word entry. */
  lemma LearnPlanet(index: Index)
    requires "AELNPT" !in index
    ensures Learn(index, "PLANET") == index["AELNPT" := ["PLANET"]]
  {
    PlanetSignature();
  }

  /** The bot does not thank itself, but still learns the word. */
  lemma ExampleNoSelfThanks(index: Index)
    requires "AELNPT" !in index
    ensures Step(index, "bob", GamesBotNick, "bob got the correct answer 'PLANET' in 5 seconds") ==
            Success(Outcome(index["AELNPT" := ["PLANET"]], []))
  {
    var s := "bob got the correct answer 'PLANET' in 5 seconds";
    BobGotIt();
    DispatchOtherUser(s, "bob", "PLANET", "5");
    StepOtherUser(index, "bob", s, "bob", "PLANET");
    LearnPlanet(index);
  }

  // ---------------------------------------------------------------------
  // The listen loop over a stream of frames

  /** An inbound frame: a chat message, or one without `data` or `text`. */
  datatype Frame = Chat(sender: string, text: string) | Malformed

  /** Where a run of the listen loop ends: the index, the texts sent, and whether it still runs. */
  datatype RunResult = RunResult(index: Index, sent: seq<string>, running: bool)

  /** `sent` followed by the run `r`. */
  function After(sent: seq<string>, r: RunResult): RunResult {
    RunResult(r.index, sent + r.sent, r.running)
  }

  /**
   * The listen loop over `frames`: malformed frames are skipped, every chat
   * message is one `Step`, and the first fault stops the loop.
   */
  function Run(index: Index, ownNick: string, frames: seq<Frame>): (r: RunResult)
    ensures Consistent(index) ==> Consistent(r.index)
    decreases |frames|
  {
    if frames == [] then RunResult(index, [], true)
    else
      match frames[0]
      case Malformed => Run(index, ownNick, frames[1..])
      case Chat(sender, text) =>
        match Step(index, ownNick, sender, text)
        case Failure(_) => RunResult(index, [], false)
        case Success(o) =>
          StepKeepsIndex(index, ownNick, sender, text);
          After(o.sent, Run(o.index, ownNick, frames[1..]))
  }

  /** The run from frame `k` on: frame `k`, then the rest. */
  lemma RunFirst(index: Index, ownNick: string, frames: seq<Frame>, k: nat)
    requires k < |frames|
    ensures Run(index, ownNick, frames[k..]) ==
      match frames[k]
      case Malformed => Run(index, ownNick, frames[k + 1..])
      case Chat(sender, text) =>
        match Step(index, ownNick, sender, text)
        case Failure(_) => RunResult(index, [], false)
        case Success(o) => After(o.sent, Run(o.index, ownNick, frames[k + 1..]))
  {
    assert frames[k..][0] == frames[k];
    assert frames[k..][1..] == frames[k + 1..];
  }

  /** Texts sent before texts sent before a run. */
  lemma AfterAfter(a: seq<string>, b: seq<string>, r: RunResult)
    ensures After(a, After(b, r)) == After(a + b, r)
  {
    assert a + (b + r.sent) == (a + b) + r.sent;
  }

  lemma AppendAssoc(a: seq<string>, b: seq<string>, c: seq<string>)
    ensures (a + b) + c == a + (b + c)
  {
  }

  /** Frames that carry no message from the game host change nothing and send nothing. */
  lemma {:induction false} RunIgnoresOthers(index: Index, ownNick: string, frames: seq<Frame>)
    requires forall k :: 0 <= k < |frames| && frames[k].Chat? ==> frames[k].sender != GamesBotNick
    ensures Run(index, ownNick, frames) == RunResult(index, [], true)
    decreases |frames|
  {
    if frames != [] {
      RunIgnoresOthers(index, ownNick, frames[1..]);
    }
  }

  // ---------------------------------------------------------------------
  // The bot object

  class Bot {
    /** `word_anagrams`: the knowledge index. */
    var wordAnagrams: Index
    /** The contents of the words file, rewritten after every learnt word. */
    ghost var persisted: Index
    /** Every chat text sent so far, in order. */
    var outbox: seq<string>
    /** False once an exception has ended the listen loop. */
    var running: bool
    /** `config["own_nick"]` */
    const ownNick: string

    /** The words file always holds the in-memory index. */
    ghost predicate Valid()
      reads this
    {
      persisted == wordAnagrams
    }

    /** The bot after loading the words file, before anything is sent. */
    constructor (wordset: Index, ownNick: string)
      ensures Valid()
      ensures wordAnagrams == wordset && outbox == [] && running && this.ownNick == ownNick
    {
      wordAnagrams := wordset;
      persisted := wordset;
      outbox := [];
      running := true;
      this.ownNick := ownNick;
    }

    /** `update_dict`: learn `newWord` and rewrite the words file. */
    method UpdateDict(newWord: string)
      requires Valid()
      modifies this
      ensures Valid()
      ensures wordAnagrams == Learn(old(wordAnagrams), newWord)
      ensures outbox == old(outbox) && running == old(running)
    {
      var sortedWord := Sig(newWord);
      if sortedWord in wordAnagrams {
        wordAnagrams := wordAnagrams[sortedWord := wordAnagrams[sortedWord] + [newWord]];
      } else {
        wordAnagrams := wordAnagrams[sortedWord := [newWord]];
      }
      persisted := wordAnagrams;
    }

    /** `send_message`: post one chat text. */
    method SendMessage(txt: string)
      modifies this
      ensures outbox == old(outbox) + [txt]
      ensures wordAnagrams == old(wordAnagrams) && persisted == old(persisted) && running == old(running)
    {
      outbox := outbox + [txt];
    }

    /** `for txt in txt_lst: send_message(txt)`: post the texts in order. */
    method SendAll(txts: seq<string>)
      modifies this
      ensures outbox == old(outbox) + txts
      ensures wordAnagrams == old(wordAnagrams) && persisted == old(persisted) && running == old(running)
    {
      var j := 0;
      while j < |txts|
        invariant 0 <= j <= |txts|
        invariant outbox == old(outbox) + txts[..j]
        invariant wordAnagrams == old(wordAnagrams) && persisted == old(persisted) && running == old(running)
      {
        SendMessage(txts[j]);
        assert txts[..j + 1] == txts[..j] + [txts[j]];
        j := j + 1;
      }
      assert txts[..|txts|] == txts;
    }

    /** The recognizers tried in order until one matches: the capture of the first match, if any. */
    method Recognise(msg: string) returns (found: Option<Capture>)
      ensures found == Dispatch(msg)
      ensures found.Some? ==> ValidCapture(found.value)
    {
      found := None;
      var i := 0;
      while i < |Patterns|
        invariant 0 <= i <= |Patterns| && found.None?
        invariant FirstMatch(Patterns[i..], msg) == Dispatch(msg)
      {
        found := Recognize(Patterns[i], msg);
        if found.Some? {
          assert Patterns[i..][0] == Patterns[i];
          break;
        }
        assert Patterns[i..][1..] == Patterns[i + 1..];
        i := i + 1;
      }
      DispatchValid(msg);
    }

    /** The handler of a recognised capture runs, then the collected answers are sent one by one. */
    method React(c: Capture)
      requires Valid() && running && ValidCapture(c)
      modifies this
      ensures Valid()
      ensures var r := Respond(old(wordAnagrams), ownNick, c);
        if r.Success? then
          wordAnagrams == r.value.index && outbox == old(outbox) + r.value.sent && running
        else
          wordAnagrams == old(wordAnagrams) && outbox == old(outbox) && !running
    {
      var txtLst: seq<string> := [];
      match c {
        case Numbers(a, op, b) =>
          var answer := SolveNumbers(a, op, b);
          if answer.Failure? {
            running := false;
            return;
          }
          txtLst := txtLst + [answer.value];
        case Anagrams(x) =>
          var anagram := RemoveSpaces(x);
          var entry := Lookup(wordAnagrams, anagram);
          if entry.Some? {
            txtLst := entry.value;
          }
        case NoOne(w) =>
          UpdateDict(w);
          SendMessage(LearntText);
        case OtherUser(n, w) =>
          UpdateDict(w);
          if n == ownNick {
            return;
          }
          SendMessage(ThanksMessage(n));
      }
      SendAll(txtLst);
    }

    /** One pass of the listen loop for a chat message from `sender`. */
    method Handle(sender: string, msg: string)
      requires Valid() && running
      modifies this
      ensures Valid()
      ensures var r := Step(old(wordAnagrams), ownNick, sender, msg);
        if r.Success? then
          wordAnagrams == r.value.index && outbox == old(outbox) + r.value.sent && running
        else
          wordAnagrams == old(wordAnagrams) && outbox == old(outbox) && !running
    {
      if sender != GamesBotNick {
        return;
      }
      var found := Recognise(msg);
      if found.None? {
        return;
      }
      React(found.value);
    }

    /**
     * The listen loop: handle the frames in order, skipping malformed ones,
     * until they run out or a fault stops the loop.
     */
    method Serve(frames: seq<Frame>)
      requires Valid() && running
      modifies this
      ensures Valid()
      ensures var r := Run(old(wordAnagrams), ownNick, frames);
        wordAnagrams == r.index && outbox == old(outbox) + r.sent && running == r.running
    {
      ghost var sent: seq<string> := [];
      assert outbox == old(outbox) + sent;
      var k := 0;
      while k < |frames| && running
        invariant 0 <= k <= |frames| && Valid()
        invariant outbox == old(outbox) + sent
        invariant running ==>
          Run(old(wordAnagrams), ownNick, frames) == After(sent, Run(wordAnagrams, ownNick, frames[k..]))
        invariant !running ==> Run(old(wordAnagrams), ownNick, frames) == RunResult(wordAnagrams, sent, false)
      {
        RunFirst(wordAnagrams, ownNick, frames, k);
        match frames[k] {
          case Malformed =>
          case Chat(sender, text) =>
            ghost var r := Step(wordAnagrams, ownNick, sender, text);
            ghost var o := outbox;
            Handle(sender, text);
            if r.Success? {
              assert outbox == o + r.value.sent;
              AppendAssoc(old(outbox), sent, r.value.sent);
              AfterAfter(sent, r.value.sent, Run(wordAnagrams, ownNick, frames[k + 1..]));
              sent := sent + r.value.sent;
            } else {
              assert outbox == o;
            }
        }
        k := k + 1;
      }
    }
  }
}
