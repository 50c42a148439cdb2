# mani-extensions: a Dafny model of its string and response logic

This project models the deterministic core of the mani-extensions PHP helper
library and of the GiantSMS client it wraps. Dafny checks every contract.

- **CSRF token codec of `Auth`.** It covers URL-safe base64 (base64url without
  padding), token creation as `enc(enc(HMAC(session . seed . t)) | seed | t)`,
  and token validation. It also covers `generateDefaultPassword`.
- **Date formatting.** `DateExtension::formatDate` formats an already-parsed
  date as `jS F, Y`, for example "1st January, 1970".
- **`Validator::validateUserInput`.** It calls five sanitising functions but
  keeps none of their results, so once its database connection opens it
  returns its input unchanged.
- **Reply cleaning in `SMSClient::sendBulkSms`.** Line 402 trims the gateway's
  reply with the character list `" \t\n\r\0\x0BNULL"`. That list is a set of
  characters, not the word "NULL".
- **The response value objects of models/GiantSmsResponses.php.** These are
  `BaseResponse`, `MessageStatus`, `SenderIdData`, `SingleSmsResponse` and
  `SenderIdResponse`. Each is a datatype, its constructor is a function from
  the decoded reply, and `toApiResponse` is a function to a map.
- **The GiantSMS `SMSResponse` normaliser.** It reads `status` and `message`
  from an array or an object and passes the status through
  `filter_var(..., FILTER_VALIDATE_BOOLEAN)`.

The code is pure, so the model is datatypes, functions and lemmas. The parts
that are not deterministic are parameters:

- HMAC-SHA256 is a function parameter `hmac(key, message)`.
- The random bytes of the seed are a parameter.
- `time()` is a parameter `t`.
- `session_id()` is a parameter.
- The secret `CSRF_TOKEN_SECRET` is a parameter.
- The permutation that `str_shuffle` draws is a parameter `perm`.

The strings of the token codec in `Auth` (the URL-safe encoding, tokens,
seeds, timestamps and HMAC values) are byte strings (`seq<byte>`). The
password alphabet of `generateDefaultPassword`, and all text elsewhere, is
`string`.

The PHP runtime functions the code relies on are defined in
`php_strings.dfy` and `base64.dfy`:

- `base64_encode` is the padded encoding of section 4 of RFC 4648.
- `base64_decode` is PHP's lenient decoder. It skips bytes outside the
  alphabet and `=`, and drops a trailing lone sextet.
- `strtr`, `trim`/`ltrim`/`rtrim`, `substr` (PHP 8 rules), `explode`/`implode`
  and integer-to-string conversion.
- ASCII `strtolower`/`strtoupper`.

A decoded JSON reply is the datatype `PhpValues.Value`. `$o->k ?? d` is
`Coalesce(Prop(o, k), d)`. Assigning a scalar to a typed `string` or `bool`
property follows PHP's weak-mode coercion.

## Model

| member | source | states |
|---|---|---|
| Auth.UrlSafeEncode | mani-extensions.php:201-204 | the output is the base64url alphabet image of the message's sextets with the padding removed; its length is ceil(4n/3); every byte is one of A-Z a-z 0-9 - _ |
| Auth.UrlSafeEncodeAvoids | mani-extensions.php:201-204 | an encoding never contains '+', '/', '=' or the token separator (the pipe character) |
| Auth.UrlSafeDecode | mani-extensions.php:206-209 | decoding never fails and yields at most three bytes for every four it reads; UrlSafeRoundTrip states that it inverts urlSafeEncode |
| Auth.UrlSafeRoundTrip | mani-extensions.php:201-209 | urlSafeDecode(urlSafeEncode(m)) == m for every byte string m |
| Base64.Base64RoundTrip | mani-extensions.php:203-208 | PHP's base64_decode inverts base64_encode on every byte string |
| Base64.DecodeSextetsInverse | mani-extensions.php:203-208 | regrouping the sextets of a byte string into bytes gives back the bytes, including the 1- and 2-byte tails |
| Auth.TimestampBytes | mani-extensions.php:178-180 | the decimal text of the timestamp contains no pipe character |
| Auth.CreateToken | mani-extensions.php:175-181 | the token is URL-safe, and it decodes to the encoded HMAC of session . seed . t, a pipe, the seed (the encoded random bytes), a pipe, and the decimal time |
| Auth.ValidateToken | mani-extensions.php:189-199 | a token validates only if its decoded form holds exactly two pipe characters, so it splits into exactly three parts |
| Auth.ValidateTokenParts | mani-extensions.php:189-199 | for a token decoding to three pipe-free parts hash, seed and t joined by pipes, validation holds exactly when hash decodes to hmac(secret, session . seed . t) |
| Auth.CreatedTokenValidates | mani-extensions.php:175-199 | a token created for a session and secret validates for that session and secret, whatever the seed and the time |
| Auth.GenerateDefaultPassword | mani-extensions.php:163-168 | the password is the shuffled alphabet cut to length: min(length, 67) characters for length >= 0 and max(0, 67 + length) for a negative length; character i is alphabet[perm[i]] and no alphabet position is used twice |
| Auth.PasswordFromAlphabet | mani-extensions.php:165-166 | every character of a default password comes from the 67-character alphabet |
| DateExtension.FormatDate | mani-extensions.php:32-40 | a null date stays null and a date always gives a string |
| DateExtension.FormatDateExample | mani-extensions.php:26 | 1 January 1970 formats as "1st January, 1970" |
| DateExtension.OrdinalSuffixTable | mani-extensions.php:38 | the 'S' suffix is st for days 1, 21, 31, nd for 2, 22, rd for 3, 23 and th for all other days, 11-13 included |
| DateExtension.ParseFormatRoundTrip | mani-extensions.php:38 | the 'jS F, Y' text of a valid date reads back as that date: the format keeps day, month and year |
| DateExtension.FormatInjective | mani-extensions.php:38 | two valid dates with the same formatted text are equal |
| Validator.ValidateUserInput | mani-extensions.php:247-256 | the result is the input unchanged, because every sanitiser's result is discarded |
| Validator.QuoteIsNotEscaped | mani-extensions.php:247-256 | a single quote meant for an SQL literal comes back unescaped |
| SmsClient.ResponseMaskIsCharacterSet | mani-extensions.php:402 | the trim list is the nine characters space, \t, \n, \r, \0, \x0B, N, U, L |
| SmsClient.CleanResponse | mani-extensions.php:402 | the cleaned reply starts and ends with a character outside that set and is no longer than the reply |
| SmsClient.CleanResponseKeepsMiddle | mani-extensions.php:402 | whatever masked runs surround a middle part, cleaning returns exactly that middle, inner N, U, L and blanks included |
| SmsClient.CleanNullReply | mani-extensions.php:402 | a reply of exactly "NULL" cleans to "" |
| SmsClient.CleanKeepsInnerNull | mani-extensions.php:402 | a trailing "NULL" is removed while a "NULL" inside the reply stays |
| SmsClient.CleanStripsLetters | mani-extensions.php:402 | leading letters of the set go even outside the word "NULL": "NULLABLE" cleans to "ABLE" |
| SmsClient.BulkSmsResult | mani-extensions.php:399-404 | a truthy cURL error is returned as it is; otherwise the cleaned reply |
| GiantSmsResponses.BaseResponseOf | models/GiantSmsResponses.php:12-16 | a missing or null status gives false and a missing or null message gives 'An error occurred'; present values are copied |
| GiantSmsResponses.BaseResponseToApi | models/GiantSmsResponses.php:18-34 | exactly the keys status and message, holding the getters' values |
| GiantSmsResponses.BaseResponseReadBack | models/GiantSmsResponses.php:12-34 | the API array read back as an object rebuilds the same response |
| GiantSmsResponses.DateOf | models/GiantSmsResponses.php:49 | a date property is "now" exactly when the reply's field is missing or null |
| GiantSmsResponses.MessageStatusOf | models/GiantSmsResponses.php:46-54 | missing message_id, rate, status and reason give ''; present strings are copied; each date is "now" exactly when its field is missing |
| GiantSmsResponses.MessageStatusToApi | models/GiantSmsResponses.php:86-96 | exactly six keys; the string fields are copied and the dates appear rendered under the renamed keys schedule_date and last_updated_date |
| GiantSmsResponses.MessageStatusReadBack | models/GiantSmsResponses.php:46-96 | the API array read back keeps the four string fields, but because of the renamed keys both dates become "now" |
| GiantSmsResponses.SenderIdDataOf | models/GiantSmsResponses.php:106-112 | missing name, purpose and approval_status give '' and missing approved gives false; present values are copied |
| GiantSmsResponses.SenderIdDataToApi | models/GiantSmsResponses.php:133-141 | exactly the four fields under their own names, unchanged |
| GiantSmsResponses.SenderIdDataReadBack | models/GiantSmsResponses.php:106-141 | the API array read back as an object rebuilds the same sender id |
| GiantSmsResponses.SingleSmsResponseOf | models/GiantSmsResponses.php:148-153 | status and message come from the top-level reply; the MessageStatus is built from data when present and from the reply itself otherwise |
| GiantSmsResponses.SingleSmsResponseWithoutData | models/GiantSmsResponses.php:148-153 | without data, the MessageStatus reads the reply's boolean status as the text "1" or "" |
| GiantSmsResponses.SingleSmsResponseToApi | models/GiantSmsResponses.php:160-167 | exactly the keys status, message and data, with the MessageStatus's API array nested under data |
| GiantSmsResponses.SenderIdsOf | models/GiantSmsResponses.php:176-178 | array_map gives one SenderIdData per item, same length, same order |
| GiantSmsResponses.SenderIdResponseOf | models/GiantSmsResponses.php:173-179 | status and message come from the reply; the sender ids follow data item by item, and a missing data gives none |
| GiantSmsResponses.GetSenderIds | models/GiantSmsResponses.php:181-186 | getSenderIds()[i] is the i-th sender id's API array, same length and order |
| GiantSmsResponses.SenderIdResponseToApi | models/GiantSmsResponses.php:188-195 | exactly the keys status, message and data, with getSenderIds() under data |
| GiantSmsResponses.SenderIdsReachApi | models/GiantSmsResponses.php:173-195 | the i-th entry under data in the API response is the i-th reply item's sender id, with defaults for missing fields |
| SmsResponse.SmsResponseOf | vendor/fingergiant/giantsms-api/src/BulkSMS/Model/SMSResponse.php:19-27 | a missing or null status gives false and a present one is filtered as a boolean; a missing or null message gives 'A fatal error occurred' and a present one is copied verbatim |
| SmsResponse.ArrayAndObjectAgree | vendor/fingergiant/giantsms-api/src/BulkSMS/Model/SMSResponse.php:20-26 | an array and an object with the same fields give the same response |
| SmsResponse.ClientErrorResponse | vendor/fingergiant/giantsms-api/src/BulkSMS/GiantSMS.php:48 | the client's error array with status 'false' gives a failed response carrying the error message |
| SmsResponse.EmptyReplyResponse | vendor/fingergiant/giantsms-api/src/BulkSMS/Model/SMSResponse.php:24-25 | a reply with neither field gives status false and the fatal-error message |
| SmsResponse.FilterIgnoresCase | vendor/fingergiant/giantsms-api/src/BulkSMS/Model/SMSResponse.php:21-24 | the boolean filter gives the same answer for a text and its upper-cased form |
| SmsResponse.FilterPaddedToken | vendor/fingergiant/giantsms-api/src/BulkSMS/Model/SMSResponse.php:21-24 | a text padded with whitespace is true exactly when its middle, lower-cased, is 1, true, on or yes |
| SmsResponse.FilterInteger | vendor/fingergiant/giantsms-api/src/BulkSMS/Model/SMSResponse.php:21-24 | an integer status is true exactly when it is 1 |
| SmsResponse.FilterBoolean | vendor/fingergiant/giantsms-api/src/BulkSMS/Model/SMSResponse.php:21-24 | a boolean status is kept as it is |

## Left out

- Validator.ValidateUserInput: the model assumes the database connection of mani-extensions.php:249 opens. If it fails, the source throws instead of returning: `new mysqli` throws `mysqli_sql_exception` from PHP 8.1, and under PHP 8.0 `mysqli_real_escape_string(false, ...)` at line 254 raises a TypeError.
- Database access is not modelled. This covers `MySql`, `PostgreSql`, `Validator::validateLoginCredentials` and the connection `validateUserInput` opens. It is I/O through mysqli and pg.
- `EmailClient::sendMail` is not modelled, because it is a call to the Mailgun API.
- The cURL request of `SMSClient::sendBulkSms` and `checkSMSBalance` are not modelled, because they are network I/O. Only the result choice and the trim of lines 399-404 are modelled.
- `Actions` is not modelled, because it is HTML templating and output buffering.
- The GiantSMS HTTP client, index.php, interfaces.php and app-config.php are not part of this model.
- HMAC-SHA256, `random_bytes`, `time()`, `session_id()` and the secret are parameters and not implemented. `hash_equals` is sequence equality, so its constant-time property is not modelled.
- Auth.CreateToken: the seed is the encoding of any byte string passed in. The source always draws 8 random bytes, so this is a generalisation.
- `str_shuffle` is modelled as a permutation `perm` of the alphabet's positions, passed in. The uniform distribution of the shuffle is not modelled.
- DateExtension.FormatDate: the `DateTime` parse of the input string is not modelled, because it needs PHP's date parser. The function takes an already-parsed valid date, with the year written with at least four digits as 'Y' does.
- GiantSmsResponses.MessageStatusToApi: the dates are `DateTime` objects built by PHP's date parser or from the clock, so the 'Y-m-d H:i' text is a parameter `render`. An invalid date string, where `new DateTime` throws, is not modelled.
- GiantSmsResponses.DateOf: a date field holding a list or an object makes `new DateTime(...)` throw a TypeError (models/GiantSmsResponses.php:49, 53). The model does not capture this and yields `FromField` of that value.
- GiantSmsResponses.MessageStatusOf: `Now` carries no instant, so `render` gives every "now" the same text. The source calls `new DateTime()` separately for each date and each object, so two "now" dates can render differently across a minute boundary. No lemma relies on them being equal.
- GiantSmsResponses.SenderIdResponseTyped: a data field holding a scalar (a string, number or boolean) makes `array_map` throw a TypeError (models/GiantSmsResponses.php:176-178). This requires clause excludes it, so that error path is not modelled.
- GiantSmsResponses.SenderIdResponseOf: a data field that is an associative array is excluded by its requires. Decoded JSON replies (objects) never produce one. A data field that is an object is also excluded, because array_map raises a TypeError there.
- Floats in replies are not modelled. A float assigned to a typed `string` property would be formatted by PHP's float printing.
- The key order of the arrays that `toApiResponse` returns is not modelled, because the outputs are maps.
- A list, array or object assigned to a typed scalar property raises a TypeError. The constructors exclude this with their requires, for example `BaseFieldsTyped`.
- Objects with `__toString` given to `filter_var` are not modelled. They fail the filter and read as false.
