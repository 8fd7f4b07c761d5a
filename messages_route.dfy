/**
 * `POST /api/messages` (app/api/messages/route.ts): the ordered validation
 * chain over the request body, the insertion into the store, the response,
 * and the lazily created table guarded by a module-level flag. The store is
 * an oracle `addMessage` that answers `None` when the insertion throws.
 */
module MessagesRoute {
  import opened Wrappers
  import opened Strings
  import opened Moderation
  import Store

  /** A field of the parsed JSON body; `Undefined` for a missing field,
      `Composite` for an object or array. */
  datatype JsValue = Undefined | Null | Bool(b: bool) | Num(n: real) | Str(s: string) | Composite

  /** JavaScript truthiness (no NaN in this model). */
  predicate Truthy(v: JsValue) {
    match v
    case Undefined => false
    case Null => false
    case Bool(b) => b
    case Num(n) => n != 0.0
    case Str(s) => s != ""
    case Composite => true
  }

  /** `{ text, positionX, positionY, duration }` destructured from the body. */
  datatype PostBody = PostBody(text: JsValue, positionX: JsValue, positionY: JsValue, duration: JsValue)

  const TextRequired: string := "Текст сообщения обязателен"
  const PositionsRequired: string := "Позиции X и Y обязательны"
  const ValidationFailed: string := "Текст не прошел валидацию"
  const CreateFailed: string := "Ошибка при создании сообщения"
  const DefaultStoredDuration: real := 5.0

  /** What the handler does with a parsed body: answer 400, or insert these values. */
  datatype Decision =
    | Reject(reason: string)
    | Insert(text: string, positionX: real, positionY: real, duration: JsValue)

  /** `duration || 5`: a falsy duration becomes 5, any other passes unchanged. */
  function StoredDuration(duration: JsValue): (d: JsValue)
    ensures Truthy(d)
    ensures Truthy(duration) ==> d == duration
  {
    if Truthy(duration) then duration else Num(DefaultStoredDuration)
  }

  /** The decision chain of `POST`: the text must be a non-empty string, then
      both positions numbers, then the text must pass `validateMessage`; the
      stored text is the trimmed text. */
  function DecidePost(body: PostBody): (d: Decision)
    ensures d.Insert? ==> 0 < |d.text| <= MessageMaxLength
    ensures d.Insert? ==> !IsSpace(d.text[0]) && !IsSpace(d.text[|d.text| - 1])
    ensures d.Reject? ==> d.reason != ""
  {
    if !Truthy(body.text) || !body.text.Str? then Reject(TextRequired)
    else if !body.positionX.Num? || !body.positionY.Num? then Reject(PositionsRequired)
    else
      match ValidateMessage(body.text.s)
      case Invalid(reason) => Reject(if reason != "" then reason else ValidationFailed)
      case Valid => Insert(Trim(body.text.s), body.positionX.n, body.positionY.n, StoredDuration(body.duration))
  }

  /** The text is checked first: anything but a non-empty string is refused
      as missing, whatever the other fields hold. */
  lemma TextCheckedFirst(body: PostBody)
    requires !(body.text.Str? && body.text.s != "")
    ensures DecidePost(body) == Reject(TextRequired)
  {
  }

  /** With a text present, the positions are checked next: both must be numbers. */
  lemma PositionsCheckedSecond(body: PostBody)
    requires body.text.Str? && body.text.s != ""
    requires !(body.positionX.Num? && body.positionY.Num?)
    ensures DecidePost(body) == Reject(PositionsRequired)
  {
  }

  /** With text and positions present, `validateMessage` decides: its reason
      is forwarded as is, and a valid text is inserted trimmed, at the given
      position, with `duration || 5`. */
  lemma ValidationDecides(body: PostBody)
    requires body.text.Str? && body.text.s != ""
    requires body.positionX.Num? && body.positionY.Num?
    ensures var v := ValidateMessage(body.text.s);
      && (v.Invalid? ==> DecidePost(body) == Reject(v.reason))
      && (v.Valid? ==>
            DecidePost(body) ==
            Insert(Trim(body.text.s), body.positionX.n, body.positionY.n, StoredDuration(body.duration)))
  {
    var v := ValidateMessage(body.text.s);
    ValidateMessageReasonNonEmpty(body.text.s);
    assert Truthy(body.text);
    if v.Invalid? {
      assert DecidePost(body) == Reject(v.reason);
    }
  }

  /** A body with an already trimmed text, numeric positions and a non-zero
      numeric duration is decided by `validateMessage` alone, and stored as sent. */
  lemma TrimmedBodyDecides(text: string, x: real, y: real, d: real)
    requires text != [] && !IsSpace(text[0]) && !IsSpace(text[|text| - 1])
    requires d != 0.0
    ensures var v := ValidateMessage(text);
      DecidePost(PostBody(Str(text), Num(x), Num(y), Num(d))) ==
      (if v.Valid? then Insert(text, x, y, Num(d)) else Reject(v.reason))
  {
    var body := PostBody(Str(text), Num(x), Num(y), Num(d));
    TrimOfTrimmed(text);
    ValidationDecides(body);
  }

  /** An empty string is refused as a missing text, not as an empty one. */
  lemma EmptyStringIsMissingText(positionX: JsValue, positionY: JsValue, duration: JsValue)
    ensures DecidePost(PostBody(Str(""), positionX, positionY, duration)) == Reject(TextRequired)
    ensures TextRequired != EmptyReason
  {
  }

  /** An absent or zero duration is stored as 5; any other number, negative
      or above 10 included, is stored as given, without the clamping of
      `normalizeDuration`. */
  lemma StoredDurationCases(n: real)
    ensures StoredDuration(Undefined) == Num(DefaultStoredDuration)
    ensures StoredDuration(Null) == Num(DefaultStoredDuration)
    ensures StoredDuration(Num(0.0)) == Num(DefaultStoredDuration)
    ensures n != 0.0 ==> StoredDuration(Num(n)) == Num(n)
  {
  }

  /** The JSON body of a response. */
  datatype ResponseBody =
    | ErrorBody(error: string)
    | CreatedBody(success: bool, id: string, text: string,
                  positionX: Option<real>, positionY: Option<real>, duration: Option<real>)

  datatype Response = Response(status: nat, body: ResponseBody)

  /** The response to a request: `request` is the parsed body, or `None` when
      parsing threw; `addMessage` is the store's answer to an insertion. */
  function PostResponse(request: Option<PostBody>,
                        addMessage: (string, real, real, JsValue) -> Option<Store.Message>): (r: Response)
    ensures r.status == 201 || r.status == 400 || r.status == 500
    ensures r.status == 201 <==> r.body.CreatedBody?
    ensures r.body.CreatedBody? ==> r.body.success
    ensures r.body.ErrorBody? ==> r.body.error != ""
  {
    match request
    case None => Response(500, ErrorBody(CreateFailed))
    case Some(body) =>
      match DecidePost(body)
      case Reject(reason) => Response(400, ErrorBody(reason))
      case Insert(text, positionX, positionY, duration) =>
        match addMessage(text, positionX, positionY, duration)
        case None => Response(500, ErrorBody(CreateFailed))
        case Some(m) => Response(201, CreatedBody(true, m.id, m.text, m.positionX, m.positionY, m.duration))
  }

  /** 400 exactly for a parsed body the chain rejects, 201 exactly when the
      store returns a record (whose fields the response copies), 500 for a
      parse or store failure, always with the same generic message. */
  lemma ResponseClassification(request: Option<PostBody>,
                               addMessage: (string, real, real, JsValue) -> Option<Store.Message>)
    ensures var r := PostResponse(request, addMessage);
      && (r.status == 400 <==> request.Some? && DecidePost(request.value).Reject?)
      && (r.status == 201 <==>
            request.Some? && DecidePost(request.value).Insert? &&
            var d := DecidePost(request.value);
            addMessage(d.text, d.positionX, d.positionY, d.duration).Some?)
      && (r.status == 201 ==>
            var d := DecidePost(request.value);
            var m := addMessage(d.text, d.positionX, d.positionY, d.duration).value;
            r.body == CreatedBody(true, m.id, m.text, m.positionX, m.positionY, m.duration))
      && (r.status != 400 && r.status != 201 ==> r == Response(500, ErrorBody(CreateFailed)))
  {
  }

  /** A rejected body is answered without the store: any two stores give the same 400. */
  lemma RejectionIgnoresStore(body: PostBody,
                              store1: (string, real, real, JsValue) -> Option<Store.Message>,
                              store2: (string, real, real, JsValue) -> Option<Store.Message>)
    requires DecidePost(body).Reject?
    ensures PostResponse(Some(body), store1) == PostResponse(Some(body), store2)
    ensures PostResponse(Some(body), store1).status == 400
  {
  }

  /** The route module's state: whether the table has been created. */
  class Route {
    var tableInitialized: bool

    constructor ()
      ensures !tableInitialized
    {
      tableInitialized := false;
    }

    /** `ensureTableExists`: tries to create the table only while not yet
        initialised; the flag is set only by a successful creation, and a
        failure is swallowed. */
    method EnsureTableExists(createSucceeds: bool) returns (createAttempted: bool)
      modifies this
      ensures createAttempted == !old(tableInitialized)
      ensures tableInitialized == (old(tableInitialized) || createSucceeds)
    {
      createAttempted := false;
      if !tableInitialized {
        createAttempted := true;
        if createSucceeds {
          tableInitialized := true;
        }
      }
    }

    /** `POST`: the table step first, whose failure does not change the response. */
    method Post(request: Option<PostBody>, createSucceeds: bool,
                addMessage: (string, real, real, JsValue) -> Option<Store.Message>)
      returns (response: Response)
      modifies this
      ensures tableInitialized == (old(tableInitialized) || createSucceeds)
      ensures response == PostResponse(request, addMessage)
    {
      var _ := EnsureTableExists(createSucceeds);
      response := PostResponse(request, addMessage);
    }
  }
}
