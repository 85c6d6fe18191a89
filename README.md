# ResumeGPT word wrap and conversation context, in Dafny

This project models two parts of ResumeGPT, a command-line assistant that
sends a position description and a resume to a chat-completion API.

The first part is the greedy word-wrap engine of `wordwrap.py`.
`fill(text, width=120, replace_whitespace=False)` works in three steps:

1. A loop inserts a `' '` after every `'\n'` that is not the last character.
2. If `replace_whitespace` is set, every `'\n'` is deleted.
3. The text is split on `' '`. The tokens are packed greedily against a
   column counter: a `'\n'` is emitted before a token when
   `count + len(token) >= width`, and each non-empty token is emitted
   followed by one `' '`.

`wrap` is `fill` followed by `split('\n')`. The class `WordWrap` binds
`width` and `replace_whitespace` once and delegates to them.

The second part is the conversation context of the `resumeGPT` class in
`resumeGPT.py`. It is a positional list of role-tagged messages. The
setters cut the list back to six entries and overwrite slot 1
(context), slot 3 (position description) or slot 5 (resume). `chat`
appends a user turn.

Files:

- `pystr.dfy` (module `PyStr`) holds the Python string builtins the engine
  uses: `str.split` on one character, exactly as Python does it (n
  separators give n+1 pieces, and `"".split(' ') == [""]`). It also holds
  `sep.join`, `"".join`, and `str.replace(c, "")`, written as `Drop`.
- `wordwrap.dfy` (module `Wordwrap`) holds the engine. `IsolateNewlines`
  and `PackTokens` are the two loops of `fill`, kept imperative and proved
  against the functions `Isolated` and `Pack`. `Fill` composes them.
  The lemmas state what `fill` guarantees.
- `resumegpt.dfy` (module `ResumeGPT`) holds the `ResumeGPT` class, whose
  `context` field is a `seq<Message>` that the methods reassign. The
  functions `SetSlot`, `WithContext`, `WithPd` and `WithResume` state each
  update, and lemmas relate them.

The model follows what the code does, including where its docstrings say
otherwise:

- The space is inserted after each newline. So `"a\nb"` tokenizes to
  `["a\n", "b"]` and fills to `"a\n b "`. With `replace_whitespace` it
  fills to `"a b "` (`ReplacedNewlineExample`).
- Empty tokens still go through the width check. When `count >= width`
  an empty token emits a `'\n'` (`BreakRule`). Only its own emission is
  skipped.
- `replace_whitespace` deletes `'\n'` and nothing else. Runs of spaces are
  not collapsed, whatever the docstrings at wordwrap.py:9 and 44-45 say.

## Model

| member | source | states |
|---|---|---|
| `PyStr.Split` | wordwrap.py:61 | `s.split(sep)` has one more piece than `s` has separators, and no piece contains the separator |
| `PyStr.Drop` | wordwrap.py:58 | `replace('\n', '')`: no character of the result is a deleted one, and the result is no longer than the input |
| `PyStr.JoinSplit` | wordwrap.py:92 | joining the pieces of a split with the separator gives the original string back |
| `PyStr.SplitJoin` | wordwrap.py:92 | splitting a join of separator-free pieces gives the pieces back |
| `PyStr.ConcatSplit` | wordwrap.py:61 | concatenating the pieces of a split is the string with the separators deleted |
| `Wordwrap.IsolateNewlines` | wordwrap.py:51-55 | the isolation loop terminates and returns `Isolated(text)`: a `' '` after every `'\n'` except one in the last position |
| `Wordwrap.IsolatedRoundTrip` | wordwrap.py:51-55 | deleting the character after every `'\n'` of the isolated text gives the input back, so the loop only inserts |
| `Wordwrap.IsolatedLength` | wordwrap.py:51-55 | exactly one character is inserted per `'\n'` that is not the last character; empty text stays empty |
| `Wordwrap.IsolatedSpaced` | wordwrap.py:51-55 | in the isolated text every `'\n'` except a final one is followed by `' '` |
| `Wordwrap.Prepared` | wordwrap.py:51-58 | the text that gets split keeps every character other than `' '` and `'\n'` in order, has a `' '` after every `'\n'` but a final one, and has no `'\n'` at all with `replace_whitespace` |
| `Wordwrap.Tokens` | wordwrap.py:61 | no token of `split(' ')` contains `' '`, each has `'\n'` only as its last character, and with `replace_whitespace` none contains `'\n'` |
| `Wordwrap.StepChars` | wordwrap.py:63-73 | one iteration of the packing loop emits the token's own characters, adding only `' '` and `'\n'` |
| `Wordwrap.PackChars` | wordwrap.py:60-73 | the packing loop emits the concatenated tokens in order, adding only `' '` and `'\n'` |
| `Wordwrap.Filled` | wordwrap.py:37-75 | deleting every `' '` and `'\n'` from `fill`'s result gives the input with every `' '` and `'\n'` deleted |
| `Wordwrap.PackTokens` | wordwrap.py:60-73 | the packing loop returns `Pack(tokens, width, 0)`, each iteration being one `Step` |
| `Wordwrap.Fill` | wordwrap.py:37-75 | `fill` returns `Filled(text, width, replace_whitespace)`, keeps every character other than `' '` and `'\n'` in order, and gives `""` for empty text when `width > 0` |
| `Wordwrap.Wrapped` | wordwrap.py:78-93 | the lines of `wrap` contain no `'\n'`, there is at least one, and joining them with `'\n'` gives `fill`'s result |
| `Wordwrap.Wrap` | wordwrap.py:92 | `wrap(t, w, r) == fill(t, w, r).split('\n')`, and joining its lines gives `fill`'s result back |
| `Wordwrap.WordWrap.constructor` | wordwrap.py:17-28 | binds `width` (default 120) and `replace_whitespace` (default false) |
| `Wordwrap.WordWrap.Fill` | wordwrap.py:30-31 | `WordWrap(w, r).fill(t) == fill(t, w, r)` |
| `Wordwrap.WordWrap.Wrap` | wordwrap.py:33-34 | `WordWrap(w, r).wrap(t) == wrap(t, w, r)` |
| `Wordwrap.TokenShape` | wordwrap.py:51-67 | every token has `'\n'` only as its last character, so a token passing `startswith('\n')` is exactly `"\n"`; with `replace_whitespace` no token contains `'\n'`, so the branch at 64-67 never runs |
| `Wordwrap.BreakRule` | wordwrap.py:68-73 | for a token not starting with `'\n'`, a `'\n'` is emitted before it exactly when `count + len >= width`, empty tokens included; the break resets the column to 0; a non-empty token is appended whole with one `' '` and advances the column by `len + 1` |
| `Wordwrap.LongTokenAlone` | wordwrap.py:68-73 | a non-empty token with `len >= width` is preceded by `'\n'` and appended whole at any column, and the next token is also preceded by `'\n'` |
| `Wordwrap.ReplacedNewlinesAreBreaks` | wordwrap.py:57-73 | with `replace_whitespace`, deleting the `'\n'`s of the output leaves exactly the non-empty tokens, each followed by one `' '`, so every `'\n'` of the output comes from line 69 |
| `Wordwrap.WrapLines` | wordwrap.py:57-93 | with `replace_whitespace` and `width >= 0`, every line of `wrap` is at most `width` long, or is one token at least `width` long followed by its `' '` |
| `Wordwrap.StepBounded` | wordwrap.py:63-73 | for a token shorter than `width` with `'\n'` only last, one iteration keeps every line at most `width` long and the last line no longer than the column counter; the counter may run ahead of the real column after a token ending in `'\n'`, but never behind it |
| `Wordwrap.WrapWithinWidth` | wordwrap.py:51-93 | with `width > 0` and every token shorter than `width`, every line of `wrap` is at most `width` long, trailing space included, with or without `replace_whitespace` |
| `Wordwrap.EmptyText` | wordwrap.py:60-75 | `fill("")` is `""` when `width > 0` and `"\n"` when `width <= 0` |
| `Wordwrap.IsolatedExample` | wordwrap.py:51-55 | `"a\nb"` isolates to `"a\n b"`: the `'\n'` at index 1 is not last, so a `' '` follows it |
| `Wordwrap.NewlineExample` | wordwrap.py:51-75 | `"a\nb"` tokenizes to `["a\n", "b"]` and fills to `"a\n b "` at width 120 |
| `Wordwrap.ReplacedNewlineExample` | wordwrap.py:51-75 | with `replace_whitespace`, `"a\nb"` tokenizes to `["a", "b"]` and fills to `"a b "` at width 120 |
| `ResumeGPT.DefaultContext` | resumeGPT.py:53-66 | six messages with roles system, user, assistant, user, assistant, user, and empty user contents at slots 1, 3 and 5 |
| `ResumeGPT.Truncated` | resumeGPT.py:113 | `del context[6:]` keeps the first `min(6, len)` entries, unchanged |
| `ResumeGPT.SetSlot` | resumeGPT.py:133-134 | truncating and then overwriting slot `k` keeps every role and changes only the content of slot `k` |
| `ResumeGPT.ResumeGPT.constructor` | resumeGPT.py:53-72 | with no configuration: empty `pd`, model `gpt-3.5-turbo`, the default context, `total_tokens == 0` |
| `ResumeGPT.ResumeGPT.FromConfig` | resumeGPT.py:69-72 | with a configuration: its `pd`, model and context, and `total_tokens == 0` |
| `ResumeGPT.ResumeGPT.SetContext` | resumeGPT.py:112-119 | truncates to 6 entries and sets slot 1 to `"Before I send the PD here's some context: " + text`; returns `"Context updated.\n"`, or hands the context to the model when `update_response` is set |
| `ResumeGPT.ResumeGPT.SetPd` | resumeGPT.py:133-135 | truncates to 6 entries and sets slot 3 to `"Here is the position description:\n\n" + text`, changing no other field; returns `"PD updated.\n"` |
| `ResumeGPT.ResumeGPT.SetResume` | resumeGPT.py:149-150 | truncates to 6 entries and sets slot 5 to `"Here is the resume:\n\n" + text` before the model is asked |
| `ResumeGPT.ResumeGPT.Chat` | resumeGPT.py:176 | appends exactly one user message with the text; earlier entries are unchanged |
| `ResumeGPT.SetterDiscardsChat` | resumeGPT.py:113-150 | on a context of at least six entries a setter discards everything after slot 5 and leaves exactly six entries |
| `ResumeGPT.ChatThenSet` | resumeGPT.py:112-176 | a chat turn followed by any of the three setters gives the same context as the setter alone |
| `ResumeGPT.SettersCommute` | resumeGPT.py:112-150 | setters of different slots commute |
| `ResumeGPT.SetterOverwrites` | resumeGPT.py:112-150 | setting the same slot twice keeps only the second value |
| `ResumeGPT.PdOnDefault` | resumeGPT.py:133-135 | `set_pd` on the default context keeps six entries and all roles, sets slot 3 and leaves slots 0, 1, 2, 4 and 5 unchanged |

## Left out

- `get_response` (resumeGPT.py:74-97) is the network call to the chat-completion API. It reads the API key from the environment, prints token usage and adds to `total_tokens`. `SetResume`, `Chat` and `SetContext` with `updateResponse` stop at the conversation they would send. The `openai_api_key` field is not modelled.
- The `update_response=True` path of `set_context` (resumeGPT.py:116-118) returns the model's reply. `ResumeGPT.ResumeGPT.SetContext` returns `Consult(context)` there instead.
- The rate-limit retry loops with `time.sleep`, and the process exit by `quit()` (resumeGPT.py:151-162, 177-188), are external errors and process control.
- The setters' requires clauses state the slot each one indexes (`len > 1`, `> 3`, `> 5`). On a shorter list Python raises `IndexError`, and that path is not modelled.
- Both `main` functions (console input and output, `os.listdir`, file reads), `load_dotenv` and the module imports are I/O.
- The context list holds Python dicts. A context passed in through `config` is shared with the caller, and the setters mutate those dicts in place. The model holds the messages as values, so that aliasing is not captured.
- `WrapLines`: the bound that allows a long token on a line of its own is proved here only with `replace_whitespace`. `WrapWithinWidth`, for tokens shorter than `width`, holds for both settings.
- The docstring claim that `replace_whitespace` collapses runs of whitespace (wordwrap.py:9, 23-24, 44-45) is not what the code does, so it is not a property here.
