/**
 * The response value objects of models/GiantSmsResponses.php.  Each class is
 * a datatype; its constructor is a function from the decoded gateway reply
 * (a PHP value) to the datatype, applying the `??` defaults and the weak-mode
 * coercion of a typed property; its getters are the datatype's fields; its
 * `toApiResponse` is a function to an associative array (key order is not
 * kept).
 *
 * The two DateTime properties of MessageStatus are kept as where they came
 * from (a reply field, or "now" when the field is missing); turning them into
 * 'Y-m-d H:i' text needs PHP's date parser and the clock, so that step is a
 * parameter `render` of the functions that need it.
 */
module GiantSmsResponses {
  import opened PhpStrings
  import opened PhpValues

  const DefaultMessage := "An error occurred"

  // ---------------------------------------------------------------------------
  // BaseResponse
  // ---------------------------------------------------------------------------

  datatype BaseResponse = BaseResponse(status: bool, message: string)

  /** `$data` can be handed to `new BaseResponse($data)` without a TypeError. */
  predicate BaseFieldsTyped(data: Value) {
    ScalarProp(data, "status") && ScalarProp(data, "message")
  }

  /** `new BaseResponse($data)`. */
  function BaseResponseOf(data: Value): (r: BaseResponse)
    requires BaseFieldsTyped(data)
    ensures Prop(data, "status") == Null ==> r.status == false
    ensures Prop(data, "status").Bool? ==> r.status == Prop(data, "status").b
    ensures Prop(data, "message") == Null ==> r.message == DefaultMessage
    ensures Prop(data, "message").Str? ==> r.message == Prop(data, "message").s
  {
    BaseResponse(
      ToBoolProperty(Coalesce(Prop(data, "status"), Bool(false))),
      ToStringProperty(Coalesce(Prop(data, "message"), Str(DefaultMessage))))
  }

  /** `BaseResponse::toApiResponse()`: exactly the keys status and message. */
  function BaseResponseToApi(r: BaseResponse): (api: map<string, Value>)
    ensures api.Keys == {"status", "message"}
    ensures api["status"] == Bool(r.status) && api["message"] == Str(r.message)
  {
    map["status" := Bool(r.status), "message" := Str(r.message)]
  }

  /** The API array, read back as an object, rebuilds the same response. */
  lemma BaseResponseReadBack(r: BaseResponse)
    ensures BaseFieldsTyped(Object(BaseResponseToApi(r)))
    ensures BaseResponseOf(Object(BaseResponseToApi(r))) == r
  {
  }

  // ---------------------------------------------------------------------------
  // MessageStatus
  // ---------------------------------------------------------------------------

  /** Where a DateTime property came from: a reply field, or `new DateTime()` (now). */
  datatype DateSource = FromField(raw: Value) | Now

  datatype MessageStatus = MessageStatus(
    messageId: string,
    scheduledDate: DateSource,
    rate: string,
    status: string,
    reason: string,
    lastUpdatedAt: DateSource)

  /** `$data` can be handed to `new MessageStatus($data)` without a TypeError. */
  predicate MessageStatusFieldsTyped(data: Value) {
    && ScalarProp(data, "message_id") && ScalarProp(data, "rate")
    && ScalarProp(data, "status") && ScalarProp(data, "reason")
  }

  /** `isset($data->name) ? new DateTime($data->name) : new DateTime()`. */
  function DateOf(data: Value, name: string): (d: DateSource)
    ensures d.Now? <==> Prop(data, name) == Null
  {
    if Prop(data, name) != Null then FromField(Prop(data, name)) else Now
  }

  /** `new MessageStatus($data)`. */
  function MessageStatusOf(data: Value): (r: MessageStatus)
    requires MessageStatusFieldsTyped(data)
    ensures Prop(data, "message_id") == Null ==> r.messageId == ""
    ensures Prop(data, "rate") == Null ==> r.rate == ""
    ensures Prop(data, "status") == Null ==> r.status == ""
    ensures Prop(data, "reason") == Null ==> r.reason == ""
    ensures Prop(data, "message_id").Str? ==> r.messageId == Prop(data, "message_id").s
    ensures Prop(data, "rate").Str? ==> r.rate == Prop(data, "rate").s
    ensures Prop(data, "status").Str? ==> r.status == Prop(data, "status").s
    ensures Prop(data, "reason").Str? ==> r.reason == Prop(data, "reason").s
    ensures r.scheduledDate.Now? <==> Prop(data, "scheduled_date") == Null
    ensures r.lastUpdatedAt.Now? <==> Prop(data, "last_updated_at") == Null
  {
    MessageStatus(
      ToStringProperty(Coalesce(Prop(data, "message_id"), Str(""))),
      DateOf(data, "scheduled_date"),
      ToStringProperty(Coalesce(Prop(data, "rate"), Str(""))),
      ToStringProperty(Coalesce(Prop(data, "status"), Str(""))),
      ToStringProperty(Coalesce(Prop(data, "reason"), Str(""))),
      DateOf(data, "last_updated_at"))
  }

  /**
   * `MessageStatus::toApiResponse()`: the string fields under their own names,
   * the dates as 'Y-m-d H:i' text under the keys schedule_date and
   * last_updated_date.  A DateTime object is never falsy, so neither date is null.
   */
  function MessageStatusToApi(ms: MessageStatus, render: DateSource -> string): (api: map<string, Value>)
    ensures api.Keys == {"message_id", "schedule_date", "rate", "status", "reason", "last_updated_date"}
    ensures api["message_id"] == Str(ms.messageId) && api["rate"] == Str(ms.rate)
    ensures api["status"] == Str(ms.status) && api["reason"] == Str(ms.reason)
    ensures api["schedule_date"] == Str(render(ms.scheduledDate))
    ensures api["last_updated_date"] == Str(render(ms.lastUpdatedAt))
  {
    map[
      "message_id" := Str(ms.messageId),
      "schedule_date" := Str(render(ms.scheduledDate)),
      "rate" := Str(ms.rate),
      "status" := Str(ms.status),
      "reason" := Str(ms.reason),
      "last_updated_date" := Str(render(ms.lastUpdatedAt))]
  }

  /**
   * Read back as an object, the API array rebuilds the string fields, but the
   * dates are renamed there, so the rebuilt object's dates are "now".
   */
  lemma MessageStatusReadBack(ms: MessageStatus, render: DateSource -> string)
    ensures MessageStatusFieldsTyped(Object(MessageStatusToApi(ms, render)))
    ensures var back := MessageStatusOf(Object(MessageStatusToApi(ms, render)));
      && back.messageId == ms.messageId && back.rate == ms.rate
      && back.status == ms.status && back.reason == ms.reason
      && back.scheduledDate == Now && back.lastUpdatedAt == Now
  {
    var api := MessageStatusToApi(ms, render);
    assert "scheduled_date" !in api && "last_updated_at" !in api;
  }

  // ---------------------------------------------------------------------------
  // SenderIdData
  // ---------------------------------------------------------------------------

  datatype SenderIdData = SenderIdData(name: string, purpose: string, approved: bool, approvalStatus: string)

  /** `$data` can be handed to `new SenderIdData($data)` without a TypeError. */
  predicate SenderIdFieldsTyped(data: Value) {
    && ScalarProp(data, "name") && ScalarProp(data, "purpose")
    && ScalarProp(data, "approved") && ScalarProp(data, "approval_status")
  }

  /** `new SenderIdData($data)`. */
  function SenderIdDataOf(data: Value): (r: SenderIdData)
    requires SenderIdFieldsTyped(data)
    ensures Prop(data, "name") == Null ==> r.name == ""
    ensures Prop(data, "purpose") == Null ==> r.purpose == ""
    ensures Prop(data, "approved") == Null ==> r.approved == false
    ensures Prop(data, "approval_status") == Null ==> r.approvalStatus == ""
    ensures Prop(data, "name").Str? ==> r.name == Prop(data, "name").s
    ensures Prop(data, "purpose").Str? ==> r.purpose == Prop(data, "purpose").s
    ensures Prop(data, "approved").Bool? ==> r.approved == Prop(data, "approved").b
    ensures Prop(data, "approval_status").Str? ==> r.approvalStatus == Prop(data, "approval_status").s
  {
    SenderIdData(
      ToStringProperty(Coalesce(Prop(data, "name"), Str(""))),
      ToStringProperty(Coalesce(Prop(data, "purpose"), Str(""))),
      ToBoolProperty(Coalesce(Prop(data, "approved"), Bool(false))),
      ToStringProperty(Coalesce(Prop(data, "approval_status"), Str(""))))
  }

  /** `SenderIdData::toApiResponse()`: the four fields under their own names. */
  function SenderIdDataToApi(d: SenderIdData): (api: map<string, Value>)
    ensures api.Keys == {"name", "purpose", "approved", "approval_status"}
    ensures api["name"] == Str(d.name) && api["purpose"] == Str(d.purpose)
    ensures api["approved"] == Bool(d.approved) && api["approval_status"] == Str(d.approvalStatus)
  {
    map[
      "name" := Str(d.name),
      "purpose" := Str(d.purpose),
      "approved" := Bool(d.approved),
      "approval_status" := Str(d.approvalStatus)]
  }

  /** The API array, read back as an object, rebuilds the same sender id. */
  lemma SenderIdDataReadBack(d: SenderIdData)
    ensures SenderIdFieldsTyped(Object(SenderIdDataToApi(d)))
    ensures SenderIdDataOf(Object(SenderIdDataToApi(d))) == d
  {
  }

  // ---------------------------------------------------------------------------
  // SingleSmsResponse extends BaseResponse
  // ---------------------------------------------------------------------------

  datatype SingleSmsResponse = SingleSmsResponse(base: BaseResponse, data: MessageStatus)

  /** `$response->data ?? $response`: the object the MessageStatus is built from. */
  function StatusSource(response: Value): Value {
    Coalesce(Prop(response, "data"), response)
  }

  /** `new SingleSmsResponse($response)`. */
  function SingleSmsResponseOf(response: Value): (r: SingleSmsResponse)
    requires BaseFieldsTyped(response)
    requires MessageStatusFieldsTyped(StatusSource(response))
    ensures r.base == BaseResponseOf(response)
    ensures Prop(response, "data") != Null ==> r.data == MessageStatusOf(Prop(response, "data"))
    ensures Prop(response, "data") == Null ==> r.data == MessageStatusOf(response)
  {
    SingleSmsResponse(BaseResponseOf(response), MessageStatusOf(StatusSource(response)))
  }

  /**
   * Without a data field the MessageStatus reads the reply's own fields: its
   * status is the reply's boolean status turned into text ("1" or "").
   */
  lemma SingleSmsResponseWithoutData(response: Value, ok: bool)
    requires response.Object? && "data" !in response.props
    requires Prop(response, "status") == Bool(ok)
    requires BaseFieldsTyped(response) && MessageStatusFieldsTyped(response)
    ensures SingleSmsResponseOf(response).base.status == ok
    ensures SingleSmsResponseOf(response).data.status == (if ok then "1" else "")
  {
  }

  /** `SingleSmsResponse::toApiResponse()`: status, message, and the MessageStatus under data. */
  function SingleSmsResponseToApi(r: SingleSmsResponse, render: DateSource -> string): (api: map<string, Value>)
    ensures api.Keys == {"status", "message", "data"}
    ensures api["status"] == Bool(r.base.status) && api["message"] == Str(r.base.message)
    ensures api["data"] == Assoc(MessageStatusToApi(r.data, render))
  {
    BaseResponseToApi(r.base)["data" := Assoc(MessageStatusToApi(r.data, render))]
  }

  // ---------------------------------------------------------------------------
  // SenderIdResponse extends BaseResponse
  // ---------------------------------------------------------------------------

  datatype SenderIdResponse = SenderIdResponse(base: BaseResponse, data: seq<SenderIdData>)

  /** `$response->data ?? []`. */
  function SenderIdItems(response: Value): Value {
    Coalesce(Prop(response, "data"), List([]))
  }

  /**
   * `$response` can be handed to `new SenderIdResponse($response)`: its data,
   * when present, is a list (array_map needs an array) of sender ids whose
   * fields can be assigned without a TypeError.
   */
  predicate SenderIdResponseTyped(response: Value) {
    && BaseFieldsTyped(response)
    && SenderIdItems(response).List?
    && forall i :: 0 <= i < |SenderIdItems(response).items| ==>
         SenderIdFieldsTyped(SenderIdItems(response).items[i])
  }

  /** `array_map(fn($item) => new SenderIdData($item), $items)`. */
  function SenderIdsOf(items: seq<Value>): (r: seq<SenderIdData>)
    requires forall i :: 0 <= i < |items| ==> SenderIdFieldsTyped(items[i])
    ensures |r| == |items|
    ensures forall i :: 0 <= i < |items| ==> r[i] == SenderIdDataOf(items[i])
  {
    if |items| == 0 then [] else [SenderIdDataOf(items[0])] + SenderIdsOf(items[1..])
  }

  /** `new SenderIdResponse($response)`: one SenderIdData per item, in order. */
  function SenderIdResponseOf(response: Value): (r: SenderIdResponse)
    requires SenderIdResponseTyped(response)
    ensures r.base == BaseResponseOf(response)
    ensures Prop(response, "data") == Null ==> r.data == []
    ensures Prop(response, "data") != Null ==>
      && |r.data| == |Prop(response, "data").items|
      && forall i :: 0 <= i < |r.data| ==> r.data[i] == SenderIdDataOf(Prop(response, "data").items[i])
  {
    SenderIdResponse(BaseResponseOf(response), SenderIdsOf(SenderIdItems(response).items))
  }

  /** `SenderIdResponse::getSenderIds()`: each sender id's API array, in order. */
  function GetSenderIds(r: SenderIdResponse): (ids: seq<map<string, Value>>)
    ensures |ids| == |r.data|
    ensures forall i :: 0 <= i < |ids| ==> ids[i] == SenderIdDataToApi(r.data[i])
    decreases |r.data|
  {
    if |r.data| == 0 then []
    else [SenderIdDataToApi(r.data[0])] + GetSenderIds(SenderIdResponse(r.base, r.data[1..]))
  }

  /** The API arrays of getSenderIds, as a PHP list. */
  function SenderIdList(ids: seq<map<string, Value>>): (v: Value)
    ensures v.List? && |v.items| == |ids|
    ensures forall i :: 0 <= i < |ids| ==> v.items[i] == Assoc(ids[i])
  {
    List(MapSeq((m: map<string, Value>) => Assoc(m), ids))
  }

  /** `SenderIdResponse::toApiResponse()`: status, message, and getSenderIds() under data. */
  function SenderIdResponseToApi(r: SenderIdResponse): (api: map<string, Value>)
    ensures api.Keys == {"status", "message", "data"}
    ensures api["status"] == Bool(r.base.status) && api["message"] == Str(r.base.message)
    ensures api["data"] == SenderIdList(GetSenderIds(r))
  {
    BaseResponseToApi(r.base)["data" := SenderIdList(GetSenderIds(r))]
  }

  /**
   * Every sender id of a reply reaches the API response unchanged: the i-th
   * entry under data holds the i-th reply item's name, purpose, approval flag
   * and approval status (with the defaults for missing ones).
   */
  lemma SenderIdsReachApi(response: Value, i: int)
    requires SenderIdResponseTyped(response)
    requires Prop(response, "data") != Null && 0 <= i < |Prop(response, "data").items|
    ensures var api := SenderIdResponseToApi(SenderIdResponseOf(response));
      api["data"].List? && |api["data"].items| == |Prop(response, "data").items|
      && api["data"].items[i] == Assoc(SenderIdDataToApi(SenderIdDataOf(Prop(response, "data").items[i])))
  {
  }
}
