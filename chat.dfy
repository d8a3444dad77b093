/** The chat session: the log of turns kept in `st.session_state.chat_history`,
    the pending example question in `st.session_state.current_question`, and
    what one run of the page does to them when a question arrives, when an
    example button is pressed and when the conversation is reset. Retrieval
    and the language model are foreign; they come in as functions or as the
    outcome they produced. */
module Chat {
  import opened Wrappers
  import opened Context

  datatype Role = User | Assistant

  /** One entry of the chat history. `sources` is `None` when the entry has no
      "sources" key at all, which is not the same as an empty list. */
  datatype Turn = Turn(role: Role, content: string, sources: Option<seq<string>>)

  /** What retrieving documents for a question and generating an answer from
      them gave: the answer with the documents used, or an exception. */
  datatype Outcome = Answered(answer: string, docs: seq<Document>) | Failed

  /** The number of documents the retriever returns at most (`k`). */
  const TopK := 3

  /** The questions offered as sidebar buttons, in button order. */
  const ExampleQuestions: seq<string> := [
    "입원비 청구에 필요한 서류는?",
    "보장 개시일은 언제인가요?",
    "암 진단비는 얼마나 받을 수 있나요?",
    "면책기간이 무엇인가요?",
    "보험료 납입은 어떻게 하나요?"
  ]

  /** Python's truth value of the question: `None` and "" are false, every
      other string, whitespace included, is true. */
  predicate Truthy(question: Option<string>) {
    question.Some? && question.value != ""
  }

  /** One question's trip through the chain: the retriever is asked with the
      question, the model is given the retrieved documents formatted by
      `FormatDocs` together with the question, and an exception in either step
      is a failure. */
  function Attempt(question: string, retrieve: string -> Option<seq<Document>>,
                   generate: (string, string) -> Option<string>): (o: Outcome)
    ensures o.Answered? <==>
              retrieve(question).Some? && generate(FormatDocs(retrieve(question).value), question).Some?
    ensures o.Answered? ==>
              Some(o.docs) == retrieve(question) && Some(o.answer) == generate(FormatDocs(o.docs), question)
  {
    match retrieve(question)
    case None => Failed
    case Some(docs) =>
      match generate(FormatDocs(docs), question)
      case None => Failed
      case Some(answer) => Answered(answer, docs)
  }

  /** The turns one accepted question adds to the history: always the user's
      turn first; then, only when an answer came back, the assistant's turn,
      which has sources exactly when documents were retrieved, and then they are
      the documents' contents in retrieval order. */
  function Exchange(question: string, outcome: Outcome): (turns: seq<Turn>)
    ensures |turns| == if outcome.Answered? then 2 else 1
    ensures turns[0] == Turn(User, question, None)
    ensures outcome.Answered? ==>
              turns[1].role == Assistant && turns[1].content == outcome.answer &&
              (turns[1].sources.Some? <==> outcome.docs != []) &&
              (turns[1].sources.Some? ==>
                 |turns[1].sources.value| == |outcome.docs| &&
                 forall i :: 0 <= i < |outcome.docs| ==>
                   turns[1].sources.value[i] == outcome.docs[i].pageContent)
  {
    var asked := Turn(User, question, None);
    match outcome
    case Failed => [asked]
    case Answered(answer, docs) =>
      [asked, Turn(Assistant, answer, if docs == [] then None else Some(Sources(docs)))]
  }

  /** A turn as the page can produce it: a user turn holds a non-empty question
      and no sources; an assistant turn that has sources has between one and
      `TopK` of them. */
  predicate TurnOk(t: Turn) {
    match t.role
    case User => t.content != "" && t.sources == None
    case Assistant => t.sources.Some? ==> 0 < |t.sources.value| <= TopK
  }

  /** The shape of every history the page builds: each turn is well formed,
      the history starts with a question, and every answer directly follows
      a question. */
  predicate WellFormed(h: seq<Turn>) {
    (forall i :: 0 <= i < |h| ==> TurnOk(h[i])) &&
    (h != [] ==> h[0].role == User) &&
    (forall i :: 0 < i < |h| && h[i].role == Assistant ==> h[i - 1].role == User)
  }

  /** Appending an accepted question's turns keeps the history well formed. */
  lemma ExchangeKeepsWellFormed(h: seq<Turn>, question: string, outcome: Outcome)
    requires WellFormed(h) && question != ""
    requires outcome.Answered? ==> |outcome.docs| <= TopK
    ensures WellFormed(h + Exchange(question, outcome))
  {
  }

  /** What was said in role `role`, in history order. */
  function Said(h: seq<Turn>, role: Role): seq<string> {
    if h == [] then []
    else Said(h[..|h| - 1], role) + (if h[|h| - 1].role == role then [h[|h| - 1].content] else [])
  }

  /** What is said in two stretches of history is what is said in each. */
  lemma {:induction false} SaidAppend(a: seq<Turn>, b: seq<Turn>, role: Role)
    ensures Said(a + b, role) == Said(a, role) + Said(b, role)
    decreases |b|
  {
    if b == [] {
      assert a + b == a;
    } else {
      assert (a + b)[..|a + b| - 1] == a + b[..|b| - 1];
      SaidAppend(a, b[..|b| - 1], role);
    }
  }

  /** An accepted question adds itself, and nothing else, to the questions
      asked; and adds its answer to the answers given exactly when one came
      back. */
  lemma ExchangeRecords(h: seq<Turn>, question: string, outcome: Outcome)
    ensures Said(h + Exchange(question, outcome), User) == Said(h, User) + [question]
    ensures Said(h + Exchange(question, outcome), Assistant) ==
              Said(h, Assistant) + (if outcome.Answered? then [outcome.answer] else [])
  {
    var turns := Exchange(question, outcome);
    SaidAppend(h, turns, User);
    SaidAppend(h, turns, Assistant);
    var first := turns[..1];
    assert first[..0] == [];
    assert Said(first, User) == [question] && Said(first, Assistant) == [];
    if outcome.Answered? {
      assert turns[..|turns| - 1] == first;
    } else {
      assert turns == first;
    }
  }

  /** The index of the last pressed button, if any was pressed. */
  function LastPressed(pressed: seq<bool>): (r: Option<nat>)
    ensures r.Some? ==> r.value < |pressed| && pressed[r.value] &&
                        forall j :: r.value < j < |pressed| ==> !pressed[j]
    ensures r.None? ==> forall j :: 0 <= j < |pressed| ==> !pressed[j]
  {
    if pressed == [] then None
    else if pressed[|pressed| - 1] then Some(|pressed| - 1)
    else LastPressed(pressed[..|pressed| - 1])
  }

  /** The state one browser session keeps between runs of the page. */
  class ChatSession {
    /** `chat_history`: the conversation so far, oldest turn first. */
    var history: seq<Turn>
    /** `current_question`: the example question waiting to be asked, `None`
        when the key is absent. */
    var pending: Option<string>

    ghost predicate Valid()
      reads this
    {
      WellFormed(history) && (pending.Some? ==> pending.value in ExampleQuestions)
    }

    /** A fresh session: the history starts empty, no example is pending. */
    constructor ()
      ensures Valid() && history == [] && pending == None
    {
      history := [];
      pending := None;
    }

    /** The loop over the example buttons: each pressed button stores its
        question as the pending one, so the last pressed button wins; when none
        is pressed the pending question stays as it was. */
    method PressExamples(pressed: seq<bool>)
      requires Valid() && |pressed| == |ExampleQuestions|
      modifies this
      ensures Valid() && history == old(history)
      ensures pending == match LastPressed(pressed)
                         case Some(i) => Some(ExampleQuestions[i])
                         case None => old(pending)
    {
      for i := 0 to |pressed|
        invariant Valid() && history == old(history)
        invariant pending == match LastPressed(pressed[..i])
                             case Some(j) => Some(ExampleQuestions[j])
                             case None => old(pending)
      {
        assert pressed[..i + 1][..i] == pressed[..i];
        if pressed[i] {
          pending := Some(ExampleQuestions[i]);
        }
      }
      assert pressed[..|pressed|] == pressed;
    }

    /** The question of this run: a pending example question overrides what was
        typed into the chat input, and the pending slot is empty afterwards. */
    method TakeQuestion(typed: Option<string>) returns (question: Option<string>)
      requires Valid()
      modifies this
      ensures Valid() && pending == None && history == old(history)
      ensures old(pending).Some? ==> question == old(pending)
      ensures old(pending).None? ==> question == typed
    {
      question := typed;
      if pending.Some? {
        question := pending;
        pending := None;
      }
    }

    /** Handles the question of this run. A falsy question changes nothing.
        Otherwise the user's turn is appended first, then the assistant's turn
        if and only if an answer came back; earlier turns are left as they were. */
    method Ask(question: Option<string>, outcome: Outcome)
      requires Valid()
      requires outcome.Answered? ==> |outcome.docs| <= TopK
      modifies this
      ensures Valid() && pending == old(pending)
      ensures !Truthy(question) ==> history == old(history)
      ensures Truthy(question) ==> history == old(history) + Exchange(question.value, outcome)
      ensures |old(history)| <= |history| && history[..|old(history)|] == old(history)
    {
      if question.Some? && question.value != "" {
        history := history + [Turn(User, question.value, None)];
        match outcome {
          case Failed =>
          case Answered(answer, docs) =>
            if docs != [] {
              history := history + [Turn(Assistant, answer, Some(Sources(docs)))];
            } else {
              history := history + [Turn(Assistant, answer, None)];
            }
        }
        ExchangeKeepsWellFormed(old(history), question.value, outcome);
      }
    }

    /** One run of the page after the buttons: take the question, and only if
        it is truthy retrieve, generate and record the exchange. */
    method Submit(typed: Option<string>, retrieve: string -> Option<seq<Document>>,
                  generate: (string, string) -> Option<string>)
      requires Valid()
      requires forall q :: retrieve(q).Some? ==> |retrieve(q).value| <= TopK
      modifies this
      ensures Valid() && pending == None
      ensures var question := if old(pending).Some? then old(pending) else typed;
              history == old(history) +
                if Truthy(question) then Exchange(question.value, Attempt(question.value, retrieve, generate))
                else []
    {
      var question := TakeQuestion(typed);
      var outcome := if Truthy(question) then Attempt(question.value, retrieve, generate) else Failed;
      Ask(question, outcome);
    }

    /** The reset button: the history becomes empty; a pending example
        question is not touched. */
    method Reset()
      requires Valid()
      modifies this
      ensures Valid() && history == [] && pending == old(pending)
    {
      history := [];
    }
  }

  /** A reset followed by an accepted question leaves a history made of that
      question's turns only. */
  method ResetThenAsk(session: ChatSession, question: string, outcome: Outcome)
    requires session.Valid() && question != ""
    requires outcome.Answered? ==> |outcome.docs| <= TopK
    modifies session
    ensures session.Valid() && session.history == Exchange(question, outcome)
  {
    session.Reset();
    session.Ask(Some(question), outcome);
  }
}
