/** The four-stage session of the app's `main`: setup, scene selection,
    chat and review, and the start-over that returns to setup. Each press of
    a form button is one `Action`; the model's two replies to a chat turn
    and the insertion time travel inside the action, as they come from
    outside the program. The mistakes table outlives the session. */
module Session {
  import opened Strings
  import opened Trim
  import opened ThinkTags
  import opened MistakeStore
  import opened Correction
  import opened Scenes

  datatype Stage = Setup | SceneSelection | Chat | Review

  /** `st.session_state`: the stage, the transcript and the chosen settings.
      The level is the catalog key the setup form stored, "" before that. */
  datatype Session = Session(
    stage: Stage,
    history: seq<string>,
    targetLang: string,
    nativeLang: string,
    level: string,
    scene: string)

  /** The session the app starts with, and starts over with. */
  const Initial: Session := Session(Setup, [], "", "", "", "")

  /** Which of the three scenes offered the scene form's select box holds. */
  datatype SceneSlot = First | Second | Third

  function SlotIndex(slot: SceneSlot): (i: nat)
    ensures i < 3
  {
    match slot
    case First => 0
    case Second => 1
    case Third => 2
  }

  /** A button press with what the form holds at that moment. */
  datatype Action =
    | SubmitSetup(target: string, native: string, choice: Level)
    | StartChatting(slot: SceneSlot)
      /** `text` is the chat box; `botReply` and `correctionReply` are the
          model's raw replies to the response and correction prompts. */
    | Send(text: string, botReply: string, correctionReply: string, timestamp: string)
    | StartOver

  /** The session together with the mistakes table. */
  datatype World = World(session: Session, store: Store)

  /** `lower()` on ASCII letters; every other character is kept. */
  function LowerChar(c: char): char
  {
    if 'A' <= c <= 'Z' then (c as int + 32) as char else c
  }

  function Lower(s: string): (r: string)
    ensures |r| == |s|
    ensures forall i :: 0 <= i < |s| ==> r[i] == LowerChar(s[i])
    decreases |s|
  {
    if s == [] then [] else [LowerChar(s[0])] + Lower(s[1..])
  }

  /** `user_input.lower() == "exit"`. */
  predicate IsExit(text: string)
    ensures IsExit(text) ==> |text| == 4
  {
    Lower(text) == "exit"
  }

  /** The exit word in any mix of upper and lower case, and nothing else. */
  lemma ExitIff(text: string)
    ensures IsExit(text) <==>
      && |text| == 4
      && (text[0] == 'e' || text[0] == 'E')
      && (text[1] == 'x' || text[1] == 'X')
      && (text[2] == 'i' || text[2] == 'I')
      && (text[3] == 't' || text[3] == 'T')
  {
    if |text| == 4 {
      var low := Lower(text);
      assert low == [low[0], low[1], low[2], low[3]];
    }
  }

  /** The transcript lines: a speaker label followed by the text verbatim. */
  function SceneLine(scene: string): (line: string)
    ensures |line| > |scene| && line[|line| - |scene|..] == scene
  {
    "**Scene:** " + scene
  }

  function YouLine(text: string): (line: string)
    ensures |line| > |text| && line[|line| - |text|..] == text
  {
    "\U{1F9D1}\U{200D}\U{1F393} **You:** " + text
  }

  function BotLine(reply: string): (line: string)
    ensures |line| > |reply| && line[|line| - |reply|..] == reply
  {
    "\U{1F916} **Bot:** " + reply
  }

  function FeedbackLine(feedback: string): (line: string)
    ensures |line| > |feedback| && line[|line| - |feedback|..] == feedback
  {
    "\U{1F4DD} **Feedback:** " + feedback
  }

  /** A transcript line tells who spoke and what was said: lines of
      different kinds never coincide, and a line of one kind determines its
      text. */
  lemma LinesTellApart(a: string, b: string)
    ensures SceneLine(a) != YouLine(b) && SceneLine(a) != BotLine(b) && SceneLine(a) != FeedbackLine(b)
    ensures YouLine(a) != BotLine(b) && YouLine(a) != FeedbackLine(b) && BotLine(a) != FeedbackLine(b)
    ensures SceneLine(a) == SceneLine(b) ==> a == b
    ensures YouLine(a) == YouLine(b) ==> a == b
    ensures BotLine(a) == BotLine(b) ==> a == b
    ensures FeedbackLine(a) == FeedbackLine(b) ==> a == b
  {
    assert SceneLine(a)[0] == '*' && YouLine(a)[0] == '\U{1F9D1}';
    assert BotLine(a)[0] == '\U{1F916}' && FeedbackLine(a)[0] == '\U{1F4DD}';
    assert SceneLine(b)[0] == '*' && YouLine(b)[0] == '\U{1F9D1}';
    assert BotLine(b)[0] == '\U{1F916}' && FeedbackLine(b)[0] == '\U{1F4DD}';
  }

  /** One button press. A press offered by another stage's page cannot
      happen there and leaves everything as it is. */
  function Step(w: World, a: Action): (r: World)
    ensures |w.store| <= |r.store| <= |w.store| + 1 && r.store[..|w.store|] == w.store
    ensures Sequential(w.store) ==> Sequential(r.store)
  {
    var s := w.session;
    match a
    case SubmitSetup(target, native, choice) =>
      if s.stage != Setup then w
      else
        // The form writes its fields back whether or not the guard passes.
        var filled := s.(targetLang := target, nativeLang := native, level := LevelName(choice));
        if filled.targetLang != "" && filled.nativeLang != "" && filled.level != "" then
          World(filled.(stage := SceneSelection), w.store)
        else
          World(filled, w.store)
    case StartChatting(slot) =>
      if s.stage != SceneSelection then w
      else
        var scene := ScenesFor(s.level)[SlotIndex(slot)];
        World(s.(stage := Chat, scene := scene, history := s.history + [SceneLine(scene)]), w.store)
    case Send(text, botReply, correctionReply, timestamp) =>
      if s.stage != Chat || text == "" then w
      else if IsExit(text) then
        World(s.(stage := Review), w.store)
      else
        var o := CorrectInput(text, correctionReply, timestamp, w.store);
        var lines := [YouLine(text), BotLine(CleanResponse(botReply)), FeedbackLine(o.feedback)];
        World(s.(history := s.history + lines), o.store)
    case StartOver =>
      if s.stage != Review then w else World(Initial, w.store)
  }

  /** Submitting the setup form moves on exactly when both language fields
      are filled; the entered values are stored either way, and nothing else
      of the session changes. */
  lemma SetupAdvancesIff(w: World, target: string, native: string, choice: Level)
    requires w.session.stage == Setup
    ensures var r := Step(w, SubmitSetup(target, native, choice));
      && (r.session.stage == SceneSelection <==> target != "" && native != "")
      && r.session == w.session.(
           stage := if target != "" && native != "" then SceneSelection else Setup,
           targetLang := target, nativeLang := native, level := LevelName(choice))
      && r.store == w.store
  {
  }

  /** Starting the chat stores the scene in the chosen slot of the level's
      list and records one banner naming it; nothing else changes. */
  lemma StartChattingAddsBanner(w: World, slot: SceneSlot)
    requires w.session.stage == SceneSelection
    ensures var scene := ScenesFor(w.session.level)[SlotIndex(slot)];
      Step(w, StartChatting(slot))
        == World(w.session.(stage := Chat, scene := scene, history := w.session.history + [SceneLine(scene)]), w.store)
  {
  }

  /** An empty chat box does nothing. */
  lemma EmptyInputIgnored(w: World, botReply: string, correctionReply: string, timestamp: string)
    ensures Step(w, Send("", botReply, correctionReply, timestamp)) == w
  {
  }

  /** The exit word ends the chat and changes nothing but the stage: the
      transcript, the settings and the table stay as they are; the input is
      neither answered nor checked. */
  lemma ExitGoesToReview(w: World, text: string, botReply: string, correctionReply: string, timestamp: string)
    requires w.session.stage == Chat
    requires IsExit(text)
    ensures Step(w, Send(text, botReply, correctionReply, timestamp)) == World(w.session.(stage := Review), w.store)
  {
  }

  /** Any other non-empty input is one turn: three transcript lines, the
      user's text, the cleaned bot reply and the cleaned correction reply,
      and nothing else of the session changes; a mistake row is logged
      exactly when the raw correction reply lacks the approval. */
  lemma TurnAppendsThreeLines(w: World, text: string, botReply: string, correctionReply: string, timestamp: string)
    requires w.session.stage == Chat
    requires text != "" && !IsExit(text)
    ensures var r := Step(w, Send(text, botReply, correctionReply, timestamp));
      && r.session == w.session.(history := w.session.history
           + [YouLine(text), BotLine(CleanResponse(botReply)), FeedbackLine(CleanResponse(correctionReply))])
      && (|r.store| == |w.store| + 1 <==> !Contains(correctionReply, Approval))
      && (!Contains(correctionReply, Approval) ==>
            r.store[|w.store|].userInput == text && r.store[|w.store|].mistake == text
            && r.store[|w.store|].correction == ExtractCorrection(correctionReply))
  {
  }

  /** Only emptiness is filtered: whitespace alone is sent as a turn. */
  lemma WhitespaceInputIsATurn(w: World, text: string, botReply: string, correctionReply: string, timestamp: string)
    requires w.session.stage == Chat
    requires text != "" && AllSpace(text)
    ensures |Step(w, Send(text, botReply, correctionReply, timestamp)).session.history| == |w.session.history| + 3
  {
    assert IsSpace(text[0]);
    ExitIff(text);
    TurnAppendsThreeLines(w, text, botReply, correctionReply, timestamp);
  }

  /** Starting over forgets the whole session but keeps the table. */
  lemma StartOverResets(w: World)
    requires w.session.stage == Review
    ensures Step(w, StartOver) == World(Initial, w.store)
  {
  }

  /** What holds of every reachable world: the ids are 1, 2, 3, …; past
      setup both languages and a catalog level are set; the transcript is
      empty until the chat starts, and from then on it is the banner of
      the chosen scene followed by whole turns of three lines. */
  predicate Inv(w: World)
  {
    Sequential(w.store) && SessionInv(w.session)
  }

  predicate SessionInv(s: Session)
  {
    && (s.stage == Setup || s.stage == SceneSelection ==> s.history == [])
    && (s.stage != Setup ==> s.targetLang != "" && s.nativeLang != "" && s.level in Catalog)
    && (s.stage == Chat || s.stage == Review ==>
          && |s.history| % 3 == 1
          && s.history[0] == SceneLine(s.scene)
          && s.scene in ScenesFor(s.level))
  }

  lemma InitialInv(store: Store)
    requires Sequential(store)
    ensures Inv(World(Initial, store))
  {
  }

  lemma StepPreservesInv(w: World, a: Action)
    requires Inv(w)
    ensures Inv(Step(w, a))
  {
    match a
    case SubmitSetup(target, native, choice) => SetupKeepsInv(w, target, native, choice);
    case StartChatting(slot) => StartChattingKeepsInv(w, slot);
    case Send(text, botReply, correctionReply, timestamp) => SendKeepsInv(w, text, botReply, correctionReply, timestamp);
    case StartOver =>
  }

  lemma SetupKeepsInv(w: World, target: string, native: string, choice: Level)
    requires Inv(w)
    ensures Inv(Step(w, SubmitSetup(target, native, choice)))
  {
    CatalogKeys();
  }

  lemma StartChattingKeepsInv(w: World, slot: SceneSlot)
    requires Inv(w)
    ensures Inv(Step(w, StartChatting(slot)))
  {
  }

  lemma SendKeepsInv(w: World, text: string, botReply: string, correctionReply: string, timestamp: string)
    requires Inv(w)
    ensures Inv(Step(w, Send(text, botReply, correctionReply, timestamp)))
  {
    var s := w.session;
    if s.stage == Chat && text != "" && !IsExit(text) {
      TurnAppendsThreeLines(w, text, botReply, correctionReply, timestamp);
      var lines := [YouLine(text), BotLine(CleanResponse(botReply)), FeedbackLine(CleanResponse(correctionReply))];
      TurnKeepsSessionInv(s, lines);
    }
  }

  lemma TurnKeepsSessionInv(s: Session, lines: seq<string>)
    requires SessionInv(s) && s.stage == Chat && |lines| == 3
    ensures SessionInv(s.(history := s.history + lines))
  {
    WholeTurnAppended(s.history, lines);
  }

  /** Three more lines keep the transcript's first line and its length
      modulo three. */
  lemma WholeTurnAppended(history: seq<string>, lines: seq<string>)
    requires history != [] && |lines| == 3
    ensures (history + lines)[0] == history[0]
    ensures |history + lines| % 3 == |history| % 3
  {
  }

  /** The worlds a sequence of button presses passes through ends in. */
  function Run(w: World, actions: seq<Action>): World
    decreases |actions|
  {
    if actions == [] then w else Run(Step(w, actions[0]), actions[1..])
  }

  /** From a fresh start, every sequence of presses keeps the invariant,
      and the table only ever grows: earlier rows are never altered. */
  lemma {:induction false} RunPreservesInv(w: World, actions: seq<Action>)
    requires Inv(w)
    ensures Inv(Run(w, actions))
    ensures |w.store| <= |Run(w, actions).store|
    ensures Run(w, actions).store[..|w.store|] == w.store
    decreases |actions|
  {
    if actions != [] {
      var next := Step(w, actions[0]);
      StepPreservesInv(w, actions[0]);
      RunPreservesInv(next, actions[1..]);
      var last := Run(w, actions);
      assert last == Run(next, actions[1..]);
      assert last.store[..|next.store|][..|w.store|] == last.store[..|w.store|];
    }
  }

  /** In the chat the transcript is the banner and whole turns. */
  lemma ChatTranscriptShape(store: Store, actions: seq<Action>)
    requires Sequential(store)
    requires Run(World(Initial, store), actions).session.stage == Chat
    ensures exists turns: nat :: |Run(World(Initial, store), actions).session.history| == 1 + 3 * turns
  {
    InitialInv(store);
    RunPreservesInv(World(Initial, store), actions);
    var n := |Run(World(Initial, store), actions).session.history|;
    assert n == 1 + 3 * (n / 3);
  }
}
