/**
 * `Validator::validateUserInput` of mani-extensions.php.  It calls trim,
 * strip_tags, stripslashes, htmlspecialchars and mysqli_real_escape_string on
 * its argument but keeps none of their results, so it returns its input as
 * it came; the database connection it opens is not used for anything else.
 */
module Validator {

  /** The input, unchanged: no character is escaped or removed. */
  function ValidateUserInput(data: string): (r: string)
    ensures r == data
  {
    data
  }

  /** A quote meant for an SQL string literal comes back unescaped. */
  lemma QuoteIsNotEscaped()
    ensures ValidateUserInput("' OR '1'='1")[0] == '\''
  {
  }
}
