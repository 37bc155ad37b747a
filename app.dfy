/**
 * The request handlers of backend/app.py over an in-memory interaction
 * table: history (clamped limit, newest first), extract (trim, reject blank
 * input, stub extraction, append one row), the debug seed (append one fixed
 * row) and clear-history (delete every row).
 */
module App {
  import opened Wrappers
  import opened Models
  import opened Text

  const MaxHistoryLimit: int := 200

  /** The sample message of the debug seed, sentence by sentence. */
  const SeedText: string := "Hi, I'm Sam from Acme. " + "Email: sam@acme.com. " + "Need a demo."
  const StubRawOutput: string := "(stubbed extractor - no LLM yet)"
  const StubEmail: string := "sam@acme.com"
  const StubCompany: string := "Acme"
  const StubSummary: string := "User is asking for a demo"
  const StubUrgency: string := "medium"
  const StatusOk: string := "ok"

  /** The lead the stub extracts from the sample message. */
  const SampleLead: LeadExtracted :=
    LeadExtracted(None, Some(StubEmail), None, Some(StubCompany), Some(StubSummary), Some(StubUrgency))

  /** An HTTPException: a status code and its detail text. */
  datatype HttpError = HttpError(status: int, detail: string)

  const TextRequired: HttpError := HttpError(400, "text is required")

  /** `max(1, min(limit, 200))`: the number of rows history may return. */
  function ClampLimit(limit: int): (r: int)
    ensures 1 <= r <= MaxHistoryLimit
    ensures 1 <= limit <= MaxHistoryLimit ==> r == limit
    ensures limit <= 1 ==> r == 1
    ensures limit >= MaxHistoryLimit ==> r == MaxHistoryLimit
  {
    if limit < 1 then 1 else if limit > MaxHistoryLimit then MaxHistoryLimit else limit
  }

  /** `s` in reverse order. */
  function Reverse<T>(s: seq<T>): (r: seq<T>)
    ensures |r| == |s|
    ensures forall i :: 0 <= i < |s| ==> r[i] == s[|s| - 1 - i]
  {
    if s == [] then [] else Reverse(s[1..]) + [s[0]]
  }

  /**
   * The stub extractor: an email when the text holds an '@', a company when
   * its lower-cased form holds "acme", and fixed summary and urgency.
   */
  function StubExtract(text: string): (r: LeadExtracted)
    ensures r.email.Some? <==> '@' in text
    ensures r.email.Some? ==> r.email.value == StubEmail
    ensures r.company.Some? <==> Contains(Lower(text), "acme")
    ensures r.company.Some? ==> r.company.value == StubCompany
    ensures r.name.None? && r.phone.None?
    ensures r.requestSummary == Some(StubSummary) && r.urgency == Some(StubUrgency)
    ensures ValidUrgency(r.urgency)
  {
    ContainsChar(text, '@');
    LeadExtracted(
      name := None,
      email := if Contains(text, "@") then Some(StubEmail) else None,
      phone := None,
      company := if Contains(Lower(text), "acme") then Some(StubCompany) else None,
      requestSummary := Some(StubSummary),
      urgency := Some(StubUrgency))
  }

  /** A text names the company whatever the case of its letters. */
  lemma CompanyAnyCase(pre: string, word: string, post: string)
    requires Lower(word) == "acme"
    ensures StubExtract(pre + word + post).company == Some(StubCompany)
  {
    LowerAppend(pre + word, post);
    LowerAppend(pre, word);
    ContainsInfix(Lower(pre), "acme", Lower(post));
  }

  /** The sample message has nothing to strip. */
  lemma SampleStripped()
    ensures IsStripped(SeedText) && Strip(SeedText) == SeedText
  {
    assert SeedText[0] == 'H' && SeedText[|SeedText| - 1] == '.';
    StripIdempotent(SeedText);
  }

  /** The sample message holds an '@'. */
  lemma SampleHasAt()
    ensures '@' in SeedText
  {
    assert SeedText[33] == '@';
  }

  /** The sample message names the company. */
  lemma SampleNamesCompany()
    ensures Contains(Lower(SeedText), "acme")
  {
    var post := ". " + "Email: sam@acme.com. " + "Need a demo.";
    assert "Hi, I'm Sam from Acme. " == "Hi, I'm Sam from " + "Acme" + ". ";
    assert SeedText == "Hi, I'm Sam from " + "Acme" + post;
    CompanyAnyCase("Hi, I'm Sam from ", "Acme", post);
  }

  /** The sample message extracts to the sample lead: email, company, summary and urgency. */
  lemma SampleExtraction()
    ensures StubExtract(SeedText) == SampleLead
  {
    SampleHasAt();
    SampleNamesCompany();
  }

  /**
   * The last `n` rows of a table whose ids increase, newest first: their ids
   * strictly decrease and every other row has a smaller id than each of them.
   */
  lemma NewestFirst(rows: seq<Interaction>, n: nat, r: seq<Interaction>)
    requires n <= |rows|
    requires forall i, j :: 0 <= i < j < |rows| ==> rows[i].id < rows[j].id
    requires r == Reverse(rows[|rows| - n..])
    ensures |r| == n
    ensures && (forall i, j :: 0 <= i < j < |r| ==> r[i].id > r[j].id)
      && (forall i :: 0 <= i < |r| ==> r[i] in rows)
      && (forall x, i :: x in rows && x !in r && 0 <= i < |r| ==> x.id < r[i].id)
  {
    assert forall i :: 0 <= i < |r| ==> r[i] == rows[|rows| - 1 - i];
    forall x, i | x in rows && x !in r && 0 <= i < |r| ensures x.id < r[i].id {
      var k :| 0 <= k < |rows| && rows[k] == x;
      assert forall m :: |rows| - n <= m < |rows| ==> rows[m] == r[|rows| - 1 - m];
      assert k < |rows| - n;
      assert r[i] == rows[|rows| - 1 - i];
    }
  }

  /**
   * The consistency rule the design states for a row: status "ok" exactly
   * when the parsed result is stored and no error is.
   */
  predicate StatusConsistent(row: Interaction) {
    (row.status == StatusOk) <==> (row.parsedJson.Some? && row.errorMessage.None?)
  }

  /** The row extract writes for a stripped text. */
  function ExtractRow(id: int, text: string, parsedJson: string): (row: Interaction)
    ensures row.inputText == text && row.status == StatusOk && row.errorMessage.None?
    ensures row.parsedJson == Some(parsedJson) && row.rawModelOutput == Some(StubRawOutput)
    ensures StatusConsistent(row)
  {
    Interaction(id, text, Some(StubRawOutput), Some(parsedJson), StatusOk, None)
  }

  /** The row the debug seed writes: status "ok" although nothing parsed is stored. */
  function SeedRow(id: int): (row: Interaction)
    ensures row.inputText == SeedText && row.status == StatusOk && row.errorMessage.None?
    ensures row.parsedJson.None? && row.rawModelOutput.None?
    ensures !StatusConsistent(row)
  {
    Interaction(id, SeedText, None, None, StatusOk, None)
  }

  /** What holds of every row the handlers write: never an error row, a stripped non-blank input text. */
  predicate WrittenRow(row: Interaction) {
    && row.status == StatusOk
    && row.errorMessage.None?
    && IsStripped(row.inputText)
    && (row.parsedJson.Some? <==> row.rawModelOutput.Some?)
  }

  /** Ids are positive, increase along the table and stay below `nextId`; every row is a written row. */
  ghost predicate ValidTable(rows: seq<Interaction>, nextId: int) {
    && nextId >= 1
    && (forall i :: 0 <= i < |rows| ==> 1 <= rows[i].id < nextId && WrittenRow(rows[i]))
    && (forall i, j :: 0 <= i < j < |rows| ==> rows[i].id < rows[j].id)
  }

  /** Appending a written row under the next id keeps the table valid. */
  lemma AppendKeepsValid(rows: seq<Interaction>, nextId: int, row: Interaction)
    requires ValidTable(rows, nextId)
    requires row.id == nextId && WrittenRow(row)
    ensures ValidTable(rows + [row], nextId + 1)
  {
  }

  /** The interaction table: rows in insertion order and the id the next row receives. */
  class InteractionStore {
    var rows: seq<Interaction>
    var nextId: int

    /** Ids are positive, increase along the table and stay below `nextId`; every row is a written row. */
    ghost predicate Valid()
      reads this
    {
      ValidTable(rows, nextId)
    }

    /** An empty table. */
    constructor ()
      ensures Valid() && rows == []
    {
      rows := [];
      nextId := 1;
    }

    /**
     * `history(limit)`: at most the clamped limit of rows, in strictly
     * descending id order, and they are the highest-id rows of the table.
     * An omitted limit is 50, as in the source.
     */
    function History(limit: int := 50): (r: seq<Interaction>)
      reads this
      requires Valid()
      ensures |r| == if |rows| < ClampLimit(limit) then |rows| else ClampLimit(limit)
      ensures forall i, j :: 0 <= i < j < |r| ==> r[i].id > r[j].id
      ensures forall i :: 0 <= i < |r| ==> r[i] in rows
      ensures forall x, i :: x in rows && x !in r && 0 <= i < |r| ==> x.id < r[i].id
    {
      var n := if |rows| < ClampLimit(limit) then |rows| else ClampLimit(limit);
      var r := Reverse(rows[|rows| - n..]);
      NewestFirst(rows, n, r);
      r
    }

    /**
     * `extract(text)`: blank input is refused with 400 and the table is left
     * as it was; otherwise the stub lead of the stripped text is returned and
     * exactly one "ok" row holding that text and the lead's serialisation
     * `dumps(lead)` is appended.
     */
    method Extract(text: string, dumps: LeadExtracted -> string) returns (r: Result<LeadExtracted, HttpError>)
      requires Valid()
      modifies this
      ensures Valid()
      ensures IsBlank(text) ==> r == Failure(TextRequired) && rows == old(rows) && nextId == old(nextId)
      ensures !IsBlank(text) ==>
        && r == Success(StubExtract(Strip(text)))
        && rows == old(rows) + [ExtractRow(old(nextId), Strip(text), dumps(r.value))]
        && nextId == old(nextId) + 1
    {
      var stripped := Strip(text);
      if stripped == [] {
        return Failure(TextRequired);
      }
      var extracted := StubExtract(stripped);
      AppendKeepsValid(rows, nextId, ExtractRow(nextId, stripped, dumps(extracted)));
      rows := rows + [ExtractRow(nextId, stripped, dumps(extracted))];
      nextId := nextId + 1;
      r := Success(extracted);
    }

    /** `seed()`: appends the fixed sample row and returns its id. */
    method Seed() returns (id: int)
      requires Valid()
      modifies this
      ensures Valid()
      ensures id == old(nextId) && rows == old(rows) + [SeedRow(id)] && nextId == old(nextId) + 1
    {
      SampleStripped();
      AppendKeepsValid(rows, nextId, SeedRow(nextId));
      id := nextId;
      rows := rows + [SeedRow(id)];
      nextId := nextId + 1;
    }

    /** `clear_history()`: deletes every row. */
    method ClearHistory()
      requires Valid()
      modifies this
      ensures Valid() && rows == []
    {
      rows := [];
    }
  }

  /**
   * Extracting the sample message into a fresh table and asking for the
   * newest row gives back that message with the serialised sample lead.
   */
  method SampleRoundTrip(dumps: LeadExtracted -> string) returns (top: seq<Interaction>)
    ensures |top| == 1
    ensures top[0].inputText == SeedText && top[0].status == StatusOk
    ensures top[0].parsedJson == Some(dumps(SampleLead))
  {
    var store := new InteractionStore();
    SampleStripped();
    SampleExtraction();
    assert !IsBlank(SeedText) by { assert !IsSpace(SeedText[0]); }
    var r := store.Extract(SeedText, dumps);
    top := store.History(1);
  }
}
