/**
 * BulkSMS\Model\SMSResponse of the GiantSMS client library: the status flag
 * and message of a gateway reply, read from an array (the client's own error
 * arrays) or from an object (a decoded reply).  The status goes through
 * `filter_var(..., FILTER_VALIDATE_BOOLEAN)`.
 */
module SmsResponse {
  import opened PhpStrings
  import opened PhpValues

  const FatalMessage := "A fatal error occurred"

  /** The characters FILTER_VALIDATE_BOOLEAN trims from both ends of its input. */
  const FilterWhitespace: set<char> := {' ', '\t', '\r', '\U{B}', '\n'}

  /** The spellings FILTER_VALIDATE_BOOLEAN reads as true (after lower-casing). */
  predicate IsTrueToken(t: string) {
    t == "1" || t == "true" || t == "on" || t == "yes"
  }

  /**
   * FILTER_VALIDATE_BOOLEAN on a string: true for 1, true, on and yes in any
   * case with surrounding whitespace; every other string fails the filter,
   * which without FILTER_NULL_ON_FAILURE also gives false.
   */
  predicate FilterBooleanText(s: string) {
    IsTrueToken(Lower(Trim(s, FilterWhitespace)))
  }

  /**
   * `filter_var($v, FILTER_VALIDATE_BOOLEAN)`: a scalar is filtered as its
   * string form (true is "1", false and null are ""); an array or an object
   * without __toString fails the filter.
   */
  predicate FilterValidateBoolean(v: Value) {
    if v.Null? then FilterBooleanText("")
    else if IsScalar(v) then FilterBooleanText(ToStringProperty(v))
    else false
  }

  datatype SmsResponse = SmsResponse(status: bool, message: Value)

  /** `isset($arrOrObj['key'])` / `isset($arrOrObj->key)`, and the value found. */
  function Field(arrOrObj: Value, key: string): Value {
    if arrOrObj.List? || arrOrObj.Assoc? then Index(arrOrObj, key) else Prop(arrOrObj, key)
  }

  /** `new SMSResponse($arrOrObj)`. */
  function SmsResponseOf(arrOrObj: Value): (r: SmsResponse)
    ensures Field(arrOrObj, "status") == Null ==> !r.status
    ensures Field(arrOrObj, "status") != Null ==> r.status == FilterValidateBoolean(Field(arrOrObj, "status"))
    ensures Field(arrOrObj, "message") == Null ==> r.message == Str(FatalMessage)
    ensures Field(arrOrObj, "message") != Null ==> r.message == Field(arrOrObj, "message")
  {
    var status := Field(arrOrObj, "status");
    var message := Field(arrOrObj, "message");
    SmsResponse(
      if status != Null then FilterValidateBoolean(status) else false,
      if message != Null then message else Str(FatalMessage))
  }

  // ---------------------------------------------------------------------------
  // Properties.
  // ---------------------------------------------------------------------------

  /** The array branch and the object branch read the same fields the same way. */
  lemma ArrayAndObjectAgree(fields: map<string, Value>)
    ensures SmsResponseOf(Assoc(fields)) == SmsResponseOf(Object(fields))
  {
  }

  /**
   * The client's error array `['status' => 'false', 'message' => $error]`
   * gives a failed response that carries the error message.
   */
  lemma ClientErrorResponse(error: string)
    ensures var r := SmsResponseOf(Assoc(map["status" := Str("false"), "message" := Str(error)]));
      !r.status && r.message == Str(error)
  {
    var errors := Assoc(map["status" := Str("false"), "message" := Str(error)]);
    assert Field(errors, "status") == Str("false");
    assert Field(errors, "message") == Str(error);
    FilterFalseWord();
  }

  /** The text 'false' fails the filter. */
  lemma FilterFalseWord()
    ensures !FilterBooleanText("false")
  {
    var w := "false";
    assert w[0] == 'f' && w[1] == 'a' && w[2] == 'l' && w[3] == 's' && w[4] == 'e';
    FilterPlainText(w);
    assert |w| == 5;
  }

  /** A reply without status or message is a failure with the fatal-error message. */
  lemma EmptyReplyResponse()
    ensures SmsResponseOf(Object(map[])) == SmsResponse(false, Str(FatalMessage))
  {
  }

  /** No whitespace character is a letter, so case mapping keeps the trim mask. */
  lemma CaseKeepsWhitespace()
    ensures forall c :: UpperChar(c) in FilterWhitespace <==> c in FilterWhitespace
  {
    forall c ensures UpperChar(c) in FilterWhitespace <==> c in FilterWhitespace {
      if 'a' <= c <= 'z' {
        assert UpperChar(c) as int >= 'A' as int;
      }
    }
  }

  /** The boolean filter ignores case: upper-casing the text changes nothing. */
  lemma FilterIgnoresCase(s: string)
    ensures FilterBooleanText(Upper(s)) == FilterBooleanText(s)
  {
    CaseKeepsWhitespace();
    TrimMap(UpperChar, s, FilterWhitespace);
    LowerUpper(Trim(s, FilterWhitespace));
  }

  /**
   * A text padded with filter whitespace is true exactly when its middle,
   * lower-cased, is a true token: the padding is ignored and nothing else is.
   */
  lemma {:induction false} FilterPaddedToken(lead: string, token: string, trail: string)
    requires forall k :: 0 <= k < |lead| ==> lead[k] in FilterWhitespace
    requires forall k :: 0 <= k < |trail| ==> trail[k] in FilterWhitespace
    requires token == [] || (token[0] !in FilterWhitespace && token[|token| - 1] !in FilterWhitespace)
    ensures FilterBooleanText(lead + token + trail) <==> IsTrueToken(Lower(token))
  {
    TrimUnique(lead, token, trail, FilterWhitespace);
  }

  /** Trim leaves a text with no filter whitespace in it as it is. */
  lemma TrimNoWhitespace(s: string)
    requires forall k :: 0 <= k < |s| ==> s[k] !in FilterWhitespace
    ensures Trim(s, FilterWhitespace) == s
  {
    TrimUnique([], s, [], FilterWhitespace);
    assert [] + s + [] == s;
  }

  /** A text with no whitespace and no capital letter is filtered as it stands. */
  lemma FilterPlainText(s: string)
    requires forall k :: 0 <= k < |s| ==> s[k] !in FilterWhitespace && !('A' <= s[k] <= 'Z')
    ensures FilterBooleanText(s) == IsTrueToken(s)
  {
    TrimNoWhitespace(s);
    assert Lower(s) == s;
  }

  /** The only integer whose text is a true token is 1. */
  lemma IntegerToken(i: int)
    ensures IsTrueToken(IntToString(i)) <==> i == 1
  {
    var s := IntToString(i);
    if i == 1 {
      assert Decimal(1) == "1";
    } else if i < 0 {
      assert s[0] == '-';
    } else {
      assert IsDigit(s[0]);
    }
  }

  /** An integer status is true exactly when it is 1. */
  lemma FilterInteger(i: int)
    ensures FilterValidateBoolean(Int(i)) <==> i == 1
  {
    var s := IntToString(i);
    assert forall k :: 0 <= k < |s| ==> s[k] == '-' || IsDigit(s[k]);
    FilterPlainText(s);
    IntegerToken(i);
  }

  /** A boolean status is itself. */
  lemma FilterBoolean(b: bool)
    ensures FilterValidateBoolean(Bool(b)) == b
  {
    FilterPlainText(if b then "1" else "");
  }
}
