/**
 * The request and result records of the recommendation API and the field
 * constraints the request model declares: a description of at least one
 * character and a number of recommendations that is at least 0, 5 when omitted.
 */
module BookModel {
  import opened Outcomes

  /** One recommendation as returned to the caller. */
  datatype RecommendedBook = RecommendedBook(
    id: string,
    title: string,
    authors: seq<string>,
    description: string,
    similarity: real)

  datatype BookRecommendationRequest = BookRecommendationRequest(description: string, numRecommendations: int)

  datatype BookRecommendationResponse = BookRecommendationResponse(recommendations: seq<RecommendedBook>)

  /** The default of `num_recommendations`. */
  const DefaultNumRecommendations: int := 5

  /** A JSON value as it arrives in the request body. */
  datatype JsonValue = JNull | JBool(b: bool) | JInt(i: int) | JString(s: string) | JOther

  /** A field of the request body: left out, or present with a value. */
  datatype Field = Absent | Present(value: JsonValue)

  /** Why one field was refused (the service answers 422 for any of them). */
  datatype FieldError =
    | Missing(field: string)
    | NotAString(field: string)
    | NotAnInteger(field: string)
    | TooShort(field: string)
    | LessThanZero(field: string)

  /** The constraints a validated request satisfies. */
  predicate ValidRequest(r: BookRecommendationRequest) {
    |r.description| >= 1 && r.numRecommendations >= 0
  }

  /** `description: Annotated[str, StringConstraints(min_length=1)]`, a required field. */
  function ValidateDescription(f: Field): (r: Result<string, FieldError>)
    ensures r.Ok? <==> f.Present? && f.value.JString? && |f.value.s| >= 1
    ensures r.Ok? ==> f == Present(JString(r.value))
  {
    match f
    case Absent => Err(Missing("description"))
    case Present(JString(s)) => if |s| >= 1 then Ok(s) else Err(TooShort("description"))
    case Present(_) => Err(NotAString("description"))
  }

  /** `num_recommendations: int = Field(5, ge=0)`. */
  function ValidateNum(f: Field): (r: Result<int, FieldError>)
    ensures f == Absent ==> r == Ok(DefaultNumRecommendations)
    ensures f.Present? ==> (r.Ok? <==> f.value.JInt? && f.value.i >= 0)
    ensures r.Ok? ==> r.value >= 0
  {
    match f
    case Absent => Ok(DefaultNumRecommendations)
    case Present(JInt(n)) => if n >= 0 then Ok(n) else Err(LessThanZero("num_recommendations"))
    case Present(_) => Err(NotAnInteger("num_recommendations"))
  }

  /** Builds the request model from the body's two fields, reporting every refused field. */
  function ValidateRequest(description: Field, num: Field): (r: Result<BookRecommendationRequest, seq<FieldError>>)
    ensures r.Ok? ==> ValidRequest(r.value)
    ensures r.Ok? <==> ValidateDescription(description).Ok? && ValidateNum(num).Ok?
    ensures r.Err? ==> |r.error| >= 1
  {
    var d, n := ValidateDescription(description), ValidateNum(num);
    if d.Ok? && n.Ok? then Ok(BookRecommendationRequest(d.value, n.value))
    else Err((if d.Err? then [d.error] else []) + (if n.Err? then [n.error] else []))
  }

  /** Every request that meets the constraints is accepted back unchanged from its own JSON fields. */
  lemma ValidRoundTrip(r: BookRecommendationRequest)
    requires ValidRequest(r)
    ensures ValidateRequest(Present(JString(r.description)), Present(JInt(r.numRecommendations))) == Ok(r)
  {
  }

  /** An accepted request is exactly the body's fields, with 5 for an omitted count. */
  lemma AcceptedIsInput(description: Field, num: Field)
    requires ValidateRequest(description, num).Ok?
    ensures description == Present(JString(ValidateRequest(description, num).value.description))
    ensures ValidateRequest(description, num).value.numRecommendations ==
      if num == Absent then DefaultNumRecommendations else num.value.i
  {
  }

  /** The cases the API tests exercise: only the well-formed bodies are accepted. */
  lemma ApiCases()
    ensures ValidateRequest(Absent, Present(JInt(2))).Err?
    ensures ValidateRequest(Present(JString("A mystery novel")), Present(JInt(0))).Ok?
    ensures ValidateRequest(Present(JInt(12345)), Present(JString("three"))).Err?
    ensures ValidateRequest(Absent, Absent).Err?
    ensures ValidateRequest(Present(JString("")), Present(JInt(3))).Err?
    ensures ValidateRequest(Present(JString("A science fiction novel")), Present(JInt(-5))).Err?
    ensures ValidateRequest(Present(JNull), Present(JInt(3))).Err?
    ensures ValidateRequest(Present(JString("A science fiction novel")), Present(JNull)).Err?
    ensures ValidateRequest(Present(JString("A science fiction novel")), Absent) ==
      Ok(BookRecommendationRequest("A science fiction novel", 5))
  {
  }
}
