# Lead parser: verified model of the extraction client and the request handlers

This project models, in Dafny, the two pieces of logic of a small lead-extraction
backend (a FastAPI service over SQLite that turns free-form text about a sales
lead into six structured fields and logs each accepted extract request as an
interaction row):

- **The extraction client** (`backend/llm.py`): the fixed system prompt, the
  user prompt template `build_user_prompt`, the two-message initial
  conversation, and the bounded retry-and-parse loop `call_and_parse_lead`. The
  chat-completion endpoint is an oracle `replies: seq<Option<string>>` (the
  k-th call's message content, `None` for a null content; a call with index
  `>= |replies|` is a call that raised), and `json.loads` is a parameter
  `parse: string -> Result<J, string>`. The loop is the method
  `Llm.CallAndParseLead`, proved equal to the recursive specification
  `Llm.Run`, and the lemmas about `Run` state how many calls are made, what each
  call sends, what is returned and when it fails.
- **The request handlers** (`backend/app.py`) over an in-memory interaction
  table, the class `App.InteractionStore` (a sequence of rows plus the next id):
  the history limit clamp and newest-first truncation, the trim-and-reject of
  blank input, the deterministic stub extractor, appending one row on extract
  and on seed, and deleting every row. The record shapes of
  `backend/models.py` are the datatypes `Models.Interaction` and
  `Models.LeadExtracted`; Python's `str.strip()`, `str.lower()` and `in` on
  strings are in module `Text`.

Files: `wrappers.dfy` (Option, Result), `models.dfy`, `text.dfy`, `llm.dfy`,
`app.dfy`.

Where the design description and the code differ, the model follows the code:

- After a reply that does not parse, the code appends ONE user message (the
  corrective instruction followed by the rejected reply), not two turns.
- `extract` does not call the extraction client: it uses the stub extractor.
  No code path writes a `status = "error"` row, and there is no rate limiter.
- The design says a row has status "ok" exactly when `parsed_json` is present.
  The seed row has status "ok" and no `parsed_json`; `App.SeedRow` proves that
  it breaks this rule, and `App.ExtractRow` that extract rows keep it.
- `history` returns the stored rows as they are; it does not re-parse
  `parsed_json` into a structured field.

## Model

| member | source | states |
|---|---|---|
| `Llm.BuildUserPrompt` | backend/llm.py:23-29 | the user prompt contains the exact JSON shape and the input text, and ends with a newline |
| `Llm.PromptRoundTrip` | backend/llm.py:23-29 | the input text can be read back from its prompt, so distinct texts give distinct prompts |
| `Llm.InitialConversation` | backend/llm.py:49-52 | the initial conversation is exactly two messages: the system prompt, then a user prompt that holds the JSON shape and the input text |
| `Llm.CorrectiveCarriesReply` | backend/llm.py:73-83 | the message appended after a bad reply has the user role and ends with that reply |
| `Llm.Attempts` | backend/llm.py:56-83 | from iteration `attempt`, the loop makes no more calls than the iterations left, and its first call sends the current conversation |
| `Llm.Run` | backend/llm.py:54-56 | at most `max(0, maxRetries + 1)` calls are made; the first sends the initial conversation; with a negative retry count no call is made and the RuntimeError carries an empty last output |
| `Llm.CallAndParseLead` | backend/llm.py:38-85 | with the retry count passed by name and defaulting to 2 (so at most 3 calls), the imperative loop (reassigning the last reply, appending to the conversation, returning early) produces exactly the outcome and call log of `Run` |
| `Llm.AttemptsSent` | backend/llm.py:73-83 | from iteration `a`, the j-th call sends the conversation followed by one correction per reply a .. a+j-1 |
| `Llm.AttemptsSound` | backend/llm.py:56-83 | from an iteration within the budget, every reply before the last call failed to parse and the outcome is the one the last call determines; the RuntimeError is unreachable |
| `Llm.RunSound` | backend/llm.py:56-85 | with `maxRetries >= 0`: between 1 and maxRetries + 1 calls, all replies but the last failed to parse, a returned or reported raw text is the last reply (null read as ""), and the RuntimeError is never raised |
| `Llm.RunParsedAt` | backend/llm.py:56-68 | if reply k (k <= maxRetries) is the first that parses, the result is that reply and its parse, after exactly k + 1 calls |
| `Llm.RunExhausted` | backend/llm.py:69-71 | if none of the maxRetries + 1 replies parses, the ValueError is raised after exactly maxRetries + 1 calls and carries the attempt count, the last decode error and the last reply |
| `Llm.RunCallFails` | backend/llm.py:57-61 | if the model stops answering within the budget while every received reply failed, the failing call's error propagates after that call |
| `Llm.RunConversation` | backend/llm.py:49-83 | the j-th call sends the two initial messages followed by one correction per earlier reply, in order |
| `Llm.RunGrowth` | backend/llm.py:73-83 | between consecutive calls the reply failed to parse and the conversation grows by exactly one user message carrying it; earlier messages are unchanged |
| `Text.Strip` | backend/app.py:66 | `str.strip()`: the result is empty exactly when the text is all whitespace, otherwise it has no whitespace at either end, and it is the text minus a blank prefix and a blank suffix |
| `Text.StripIdempotent` | backend/app.py:66 | a stripped text is left unchanged by stripping, so stripping twice is stripping once |
| `Text.ContainsChar` | backend/app.py:72 | the substring test for `"@"` is membership of the character '@' |
| `Text.LowerAppend` | backend/app.py:74 | lower-casing works piecewise over a concatenation |
| `App.ClampLimit` | backend/app.py:29 | the clamped limit lies in [1, 200], equals the requested limit inside that range, is 1 for limits <= 1 and 200 for limits >= 200 |
| `App.InteractionStore.History` | backend/app.py:27-32 | with the limit defaulting to 50, history returns min(clamped limit, row count) rows, in strictly descending id order, all from the table, and every row left out has a smaller id than each returned one |
| `App.NewestFirst` | backend/app.py:30-32 | the last n rows of a table with increasing ids, reversed, are the n highest-id rows in strictly descending id order |
| `App.StubExtract` | backend/app.py:70-77 | email is "sam@acme.com" exactly when the text holds '@', company is "Acme" exactly when the lower-cased text holds "acme", name and phone are null, summary and urgency are fixed, and the urgency is one the schema's comment allows |
| `App.CompanyAnyCase` | backend/app.py:74 | the company is found whatever the case of the letters of "acme" |
| `App.SampleStripped` | backend/app.py:42 | the sample message has nothing to strip |
| `App.SampleExtraction` | backend/app.py:70-77 | the sample message extracts to email "sam@acme.com", company "Acme", the fixed summary and urgency "medium" |
| `App.ExtractRow` | backend/app.py:79-85 | an extract row holds the stripped text, the stub raw output and the serialised lead, has status "ok" and no error, and keeps the status/parsed-result rule |
| `App.SeedRow` | backend/app.py:41-47 | the seed row holds the sample text, status "ok", no raw output and no parsed result, and so breaks the status/parsed-result rule |
| `App.AppendKeepsValid` | backend/app.py:79-88 | appending a written row under the next id keeps ids increasing and every row a non-error row with stripped, non-empty input |
| `App.InteractionStore.Extract` | backend/app.py:58-89 | blank text fails with 400 "text is required" and leaves the table unchanged; otherwise it returns the stub lead of the stripped text and appends exactly one row (next id, stripped text, status "ok", no error, serialised lead), every earlier row unchanged |
| `App.InteractionStore.Seed` | backend/app.py:35-56 | appends exactly the fixed sample row under the next id and returns that id; earlier rows unchanged |
| `App.InteractionStore.ClearHistory` | backend/app.py:91-99 | the table is empty afterwards |
| `App.SampleRoundTrip` | backend/app.py:58-89 | extracting the sample message into an empty table and asking for one row of history gives back that text, status "ok" and the serialised sample lead |

## Left out

- `make_client` and the OpenAI client (backend/llm.py:32-35, 57-61): environment lookup and network I/O. Replaced by the oracle `replies`; the `model` argument and `temperature=0` are passed to the endpoint only, so they are not modelled.
- `json.loads` and `json.dumps`: library calls. `json.loads` is the parameter `parse` (its error text stands for the JSONDecodeError); `json.dumps` of the lead is the parameter `dumps` of `Extract`. No JSON grammar is modelled.
- The text of the ValueError and RuntimeError messages: the outcomes carry their parts (attempt count, decode error, last output) instead of the formatted string.
- FastAPI routing, `Depends`, `lifespan`, `response_model` filtering and `HTTPException` plumbing: framework wiring. The 400 case is the error result of `Extract`.
- The health endpoint: it returns a constant and touches no state.
- backend/db.py (engine, sessions, commit): I/O plumbing. Ids come from a store-owned counter, and a failed commit is not modelled.
- `App.InteractionStore.ClearHistory`: does not promise which id the next row receives after a clear, because SQLite may reuse ids once the table is empty.
- `created_at` timestamps and the seed response's `created_at` field: wall-clock time.
- `Text.Lower`: lower-cases only the ASCII letters, where Python's `str.lower()` maps all of Unicode. Only the test for "acme" uses it, and no non-ASCII character lower-cases to one of its letters, so the stub's company field is unaffected.
- The `req.text or ""` fallback: the request model declares `text: str`, so the value is never null after validation; the model takes a string.
- frontend/src/App.jsx: UI state and fetch calls.
- Rate limiting, error-row persistence and schema validation of a model reply: not present in the handlers as written.
