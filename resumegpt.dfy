/**
  The conversation context kept by the `resumeGPT` class of `resumeGPT.py`.

  The object holds a positional list of role-tagged messages: slot 0 is the
  system prompt, slot 1 the extra context, slot 3 the position description,
  slot 5 the resume, and chat turns are appended after slot 5. The setters
  cut the list back to its first six entries and overwrite one slot; `chat`
  appends a user turn. The model call that `set_resume`, `chat` and
  `set_context(..., True)` make afterwards is not modelled: those methods
  hand back the conversation they would send.
*/
module ResumeGPT {

  /** One `{"role": ..., "content": ...}` entry of the context list. */
  datatype Message = Message(role: string, content: string)

  /** What `set_context` hands back: its confirmation, or the conversation sent to the model. */
  datatype Reply = Confirm(text: string) | Consult(convo: seq<Message>)

  const DefaultModel: string := "gpt-3.5-turbo"

  const SystemPrompt: string :=
    "You take in a position description and a resume and briefly explain how "
    + "suited they are for the job and then give a rating 1-10 based on how "
    + "qualified they are. You also value experience in a related field the "
    + "most. Also the stated degree level is a minimum."

  const ContextPrefix: string := "Before I send the PD here's some context: "
  const PdPrefix: string := "Here is the position description:\n\n"
  const ResumePrefix: string := "Here is the resume:\n\n"

  /** The slots the setters overwrite. */
  const ContextSlot: nat := 1
  const PdSlot: nat := 3
  const ResumeSlot: nat := 5

  /** Number of entries the setters keep. */
  const Kept: nat := 6

  /** The roles of a context, in order. */
  function Roles(ctx: seq<Message>): (roles: seq<string>)
    ensures |roles| == |ctx|
    ensures forall i :: 0 <= i < |ctx| ==> roles[i] == ctx[i].role
  {
    if ctx == [] then [] else [ctx[0].role] + Roles(ctx[1..])
  }

  /** The context built when no configuration is given. */
  function DefaultContext(): (ctx: seq<Message>)
    ensures |ctx| == Kept
    ensures Roles(ctx) == ["system", "user", "assistant", "user", "assistant", "user"]
    ensures ctx[ContextSlot].content == "" && ctx[PdSlot].content == "" && ctx[ResumeSlot].content == ""
  {
    [ Message("system", SystemPrompt),
      Message("user", ""),
      Message("assistant", "Ok I'll keep that in mind. "),
      Message("user", ""),
      Message("assistant", "Ok next send the resume"),
      Message("user", "") ]
  }

  /** `del context[6:]`: the first six entries, or all of them when there are fewer. */
  function Truncated(ctx: seq<Message>): (r: seq<Message>)
    ensures |r| == if |ctx| > Kept then Kept else |ctx|
    ensures r == ctx[..|r|]
  {
    if |ctx| > Kept then ctx[..Kept] else ctx
  }

  /** `del context[6:]` followed by `context[k]["content"] = content`. */
  function SetSlot(ctx: seq<Message>, k: nat, content: string): (r: seq<Message>)
    requires k < |ctx| && k < Kept
    ensures |r| == |Truncated(ctx)|
    ensures Roles(r) == Roles(Truncated(ctx))
    ensures r[k].content == content
    ensures forall i :: 0 <= i < |r| && i != k ==> r[i] == ctx[i]
  {
    var t := Truncated(ctx);
    t[k := Message(t[k].role, content)]
  }

  /** The context after `set_context(text)`. */
  function WithContext(ctx: seq<Message>, text: string): seq<Message>
    requires |ctx| > ContextSlot
  {
    SetSlot(ctx, ContextSlot, ContextPrefix + text)
  }

  /** The context after `set_pd(text)`. */
  function WithPd(ctx: seq<Message>, text: string): seq<Message>
    requires |ctx| > PdSlot
  {
    SetSlot(ctx, PdSlot, PdPrefix + text)
  }

  /** The context after the list update of `set_resume(text)`. */
  function WithResume(ctx: seq<Message>, text: string): seq<Message>
    requires |ctx| > ResumeSlot
  {
    SetSlot(ctx, ResumeSlot, ResumePrefix + text)
  }

  /** The conversation object; `get_response` and the API key are not part of this model. */
  class ResumeGPT {
    var pd: string
    var model: string
    var context: seq<Message>
    var totalTokens: int

    /** `resumeGPT()` with no configuration. */
    constructor ()
      ensures pd == "" && model == DefaultModel && context == DefaultContext() && totalTokens == 0
    {
      pd := "";
      model := DefaultModel;
      context := DefaultContext();
      totalTokens := 0;
    }

    /** `resumeGPT(config)` with `config = {"pd": pd, "model": model, "context": context}`. */
    constructor FromConfig(pd: string, model: string, context: seq<Message>)
      ensures this.pd == pd && this.model == model && this.context == context && totalTokens == 0
    {
      this.pd := pd;
      this.model := model;
      this.context := context;
      totalTokens := 0;
    }

    /** `set_context`: rewrites slot 1; asks the model only when `updateResponse` is set. */
    method SetContext(text: string, updateResponse: bool := false) returns (r: Reply)
      requires |context| > ContextSlot
      modifies this`context
      ensures context == WithContext(old(context), text)
      ensures r == if updateResponse then Consult(context) else Confirm("Context updated.\n")
    {
      var content := ContextPrefix + text;
      context := Truncated(context);
      context := context[ContextSlot := Message(context[ContextSlot].role, content)];
      if updateResponse {
        return Consult(context);
      }
      return Confirm("Context updated.\n");
    }

    /** `set_pd`: rewrites slot 3 and leaves the `pd` field alone. */
    method SetPd(text: string) returns (r: string)
      requires |context| > PdSlot
      modifies this`context
      ensures context == WithPd(old(context), text)
      ensures r == "PD updated.\n"
    {
      context := Truncated(context);
      context := context[PdSlot := Message(context[PdSlot].role, PdPrefix + text)];
      r := "PD updated.\n";
    }

    /** The list update of `set_resume`; returns the conversation it then sends to the model. */
    method SetResume(text: string) returns (convo: seq<Message>)
      requires |context| > ResumeSlot
      modifies this`context
      ensures context == WithResume(old(context), text)
      ensures convo == context
    {
      context := Truncated(context);
      context := context[ResumeSlot := Message(context[ResumeSlot].role, ResumePrefix + text)];
      convo := context;
    }

    /** The list update of `chat`; returns the conversation it then sends to the model. */
    method Chat(text: string) returns (convo: seq<Message>)
      modifies this`context
      ensures context == old(context) + [Message("user", text)]
      ensures convo == context
    {
      context := context + [Message("user", text)];
      convo := context;
    }
  }

  // ---------------------------------------------------------------------
  // Properties of the setters
  // ---------------------------------------------------------------------

  /** On a context of at least six entries a setter keeps exactly six, whatever was appended after slot 5. */
  lemma SetterDiscardsChat(ctx: seq<Message>, extra: seq<Message>, k: nat, content: string)
    requires |ctx| >= Kept && k < Kept
    ensures |SetSlot(ctx + extra, k, content)| == Kept
    ensures SetSlot(ctx + extra, k, content) == SetSlot(ctx, k, content)
  {
    assert (ctx + extra)[..Kept] == ctx[..Kept];
  }

  /** A chat turn followed by a setter leaves the same context as the setter alone. */
  lemma ChatThenSet(ctx: seq<Message>, turn: string, text: string)
    requires |ctx| >= Kept
    ensures WithContext(ctx + [Message("user", turn)], text) == WithContext(ctx, text)
    ensures WithPd(ctx + [Message("user", turn)], text) == WithPd(ctx, text)
    ensures WithResume(ctx + [Message("user", turn)], text) == WithResume(ctx, text)
  {
    SetterDiscardsChat(ctx, [Message("user", turn)], ContextSlot, ContextPrefix + text);
    SetterDiscardsChat(ctx, [Message("user", turn)], PdSlot, PdPrefix + text);
    SetterDiscardsChat(ctx, [Message("user", turn)], ResumeSlot, ResumePrefix + text);
  }

  /** Setters of different slots commute. */
  lemma SettersCommute(ctx: seq<Message>, k1: nat, a: string, k2: nat, b: string)
    requires k1 < |ctx| && k2 < |ctx| && k1 < Kept && k2 < Kept && k1 != k2
    ensures SetSlot(SetSlot(ctx, k1, a), k2, b) == SetSlot(SetSlot(ctx, k2, b), k1, a)
  {
  }

  /** Setting a slot twice keeps only the second value. */
  lemma SetterOverwrites(ctx: seq<Message>, k: nat, a: string, b: string)
    requires k < |ctx| && k < Kept
    ensures SetSlot(SetSlot(ctx, k, a), k, b) == SetSlot(ctx, k, b)
  {
  }

  /** `set_pd` on the default context changes slot 3 only. */
  lemma PdOnDefault(text: string)
    ensures var ctx := WithPd(DefaultContext(), text);
            && |ctx| == Kept
            && Roles(ctx) == Roles(DefaultContext())
            && ctx[PdSlot].content == PdPrefix + text
            && forall i :: 0 <= i < Kept && i != PdSlot ==> ctx[i] == DefaultContext()[i]
  {
  }
}
