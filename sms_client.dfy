/**
 * The deterministic tail of `SMSClient::sendBulkSms` in mani-extensions.php:
 * the cURL error when there is one, otherwise the gateway's reply passed
 * through `trim($response, " \t\n\r\0\x0BNULL")`.  The request itself is
 * network I/O and is not modelled.
 */
module SmsClient {
  import opened PhpStrings

  /** The characters of a trim character list; each one counts on its own. */
  function CharMask(chars: string): (mask: set<char>)
    ensures forall c :: c in mask <==> c in chars
  {
    set i | 0 <= i < |chars| :: chars[i]
  }

  /** The character list of line 402. */
  const ResponseTrimChars: string := " \t\n\r\0\U{B}NULL"

  /** "NULL" in the list contributes the letters N, U and L, not the word. */
  lemma ResponseMaskIsCharacterSet()
    ensures CharMask(ResponseTrimChars) == {' ', '\t', '\n', '\r', '\0', '\U{B}', 'N', 'U', 'L'}
  {
  }

  /** The cleaned reply: leading and trailing runs of mask characters removed. */
  function CleanResponse(response: string): (cleaned: string)
    ensures cleaned == [] || (cleaned[0] !in CharMask(ResponseTrimChars)
                              && cleaned[|cleaned| - 1] !in CharMask(ResponseTrimChars))
    ensures |cleaned| <= |response|
  {
    Trim(response, CharMask(ResponseTrimChars))
  }

  /**
   * Whatever surrounds a middle part with masked runs, cleaning returns
   * exactly that middle, however many N, U, L or blanks it holds inside.
   */
  lemma CleanResponseKeepsMiddle(lead: string, mid: string, trail: string)
    requires forall k :: 0 <= k < |lead| ==> lead[k] in CharMask(ResponseTrimChars)
    requires forall k :: 0 <= k < |trail| ==> trail[k] in CharMask(ResponseTrimChars)
    requires mid == [] || (mid[0] !in CharMask(ResponseTrimChars)
                           && mid[|mid| - 1] !in CharMask(ResponseTrimChars))
    ensures CleanResponse(lead + mid + trail) == mid
  {
    TrimUnique(lead, mid, trail, CharMask(ResponseTrimChars));
  }

  /** A reply that is only "NULL" cleans to the empty string. */
  lemma CleanNullReply()
    ensures CleanResponse("NULL") == ""
  {
    ResponseMaskIsCharacterSet();
    assert "NULL" == "NULL" + "" + "";
    CleanResponseKeepsMiddle("NULL", "", "");
  }

  /** A trailing "NULL" goes while a "NULL" inside the reply stays. */
  lemma CleanKeepsInnerNull()
    ensures CleanResponse("{\"id\":\"NULL\"}NULL\n") == "{\"id\":\"NULL\"}"
  {
    var mid := "{\"id\":\"NULL\"}";
    ResponseMaskIsCharacterSet();
    assert mid[0] == '{' && mid[|mid| - 1] == '}';
    assert "{\"id\":\"NULL\"}NULL\n" == "" + mid + "NULL\n";
    CleanResponseKeepsMiddle("", mid, "NULL\n");
  }

  /** The listed letters go wherever they lead the reply, not only as the word "NULL". */
  lemma CleanStripsLetters()
    ensures CleanResponse("NULLABLE") == "ABLE"
  {
    ResponseMaskIsCharacterSet();
    assert "NULLABLE" == "NULL" + "ABLE" + "";
    CleanResponseKeepsMiddle("NULL", "ABLE", "");
  }

  /**
   * Lines 399-404: a non-empty cURL error (PHP truthiness: neither "" nor "0")
   * is returned as it is; otherwise the cleaned reply.
   */
  function BulkSmsResult(curlError: string, response: string): (r: string)
    ensures StringToBool(curlError) ==> r == curlError
    ensures !StringToBool(curlError) ==> r == CleanResponse(response)
  {
    if StringToBool(curlError) then curlError else CleanResponse(response)
  }
}
