/** The record shapes of backend/models.py. */
module Models {
  import opened Wrappers

  /**
   * One persisted row of the interaction table. `created_at` (a wall-clock
   * timestamp) is not modelled; `id` is assigned by the store.
   */
  datatype Interaction = Interaction(
    id: int,
    inputText: string,
    rawModelOutput: Option<string>,
    parsedJson: Option<string>,
    status: string,
    errorMessage: Option<string>)

  /** The six optional fields of an extracted lead. */
  datatype LeadExtracted = LeadExtracted(
    name: Option<string>,
    email: Option<string>,
    phone: Option<string>,
    company: Option<string>,
    requestSummary: Option<string>,
    urgency: Option<string>)

  /**
   * The urgency values the schema's comment names. The record type itself
   * does not enforce this: any string is accepted in `urgency`.
   */
  predicate ValidUrgency(u: Option<string>) {
    u.None? || u.value in {"low", "medium", "high"}
  }
}
