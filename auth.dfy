/**
 * The `Auth` class of mani-extensions.php: URL-safe base 64, the CSRF token
 * scheme built on it, and the default-password generator.
 *
 * The primitives the class reaches for are parameters here: the HMAC-SHA256
 * function (`hash_hmac('sha256', $msg, $key, true)`, passed as `hmac(key, msg)`),
 * the bytes `random_bytes(8)` returned, the value of `time()`, the value of
 * `session_id()`, the secret `CSRF_TOKEN_SECRET` and the result of `str_shuffle`.
 */
module Auth {
  import opened PhpStrings
  import opened Base64

  /** HMAC-SHA256 over (key, message), raw binary output. */
  type Hmac = (seq<byte>, seq<byte>) -> seq<byte>

  const Plus: byte := 43        // '+'
  const Slash: byte := 47       // '/'
  const Minus: byte := 45       // '-'
  const Underscore: byte := 95  // '_'
  const Pipe: byte := 124       // '|'

  /** The characters of the URL and filename safe alphabet (table 2 of RFC 4648). */
  predicate IsUrlSafe(c: byte) {
    || 65 <= c <= 90     // 'A' .. 'Z'
    || 97 <= c <= 122    // 'a' .. 'z'
    || 48 <= c <= 57     // '0' .. '9'
    || c == Minus
    || c == Underscore
  }

  /** The character for a 6-bit value in the URL and filename safe alphabet. */
  function UrlChar(v: sextet): byte {
    if v == 62 then Minus else if v == 63 then Underscore else StdChar(v)
  }

  /** strtr('+/', '-_') turns the standard alphabet into the URL-safe one and keeps '='. */
  lemma ToUrlAlphabet(v: seq<sextet>, n: nat)
    ensures Strtr(MapSeq(StdChar, v) + Padding(n), [Plus, Slash], [Minus, Underscore])
         == MapSeq(UrlChar, v) + Padding(n)
  {
    var s := MapSeq(StdChar, v) + Padding(n);
    forall i | 0 <= i < |s|
      ensures TranslateChar(s[i], [Plus, Slash], [Minus, Underscore]) == (MapSeq(UrlChar, v) + Padding(n))[i]
    {
      TranslatePair(s[i], Plus, Slash, Minus, Underscore);
    }
  }

  /** strtr('-_', '+/') turns the URL-safe alphabet back into the standard one. */
  lemma FromUrlAlphabet(v: seq<sextet>)
    ensures Strtr(MapSeq(UrlChar, v), [Minus, Underscore], [Plus, Slash]) == MapSeq(StdChar, v)
  {
    var s := MapSeq(UrlChar, v);
    forall i | 0 <= i < |s|
      ensures TranslateChar(s[i], [Minus, Underscore], [Plus, Slash]) == StdChar(v[i])
    {
      TranslatePair(s[i], Minus, Underscore, Plus, Slash);
    }
  }

  /** rtrim('=') removes exactly the padding. */
  lemma DropPadding(v: seq<sextet>, n: nat)
    ensures RTrim(MapSeq(UrlChar, v) + Padding(n), {PadChar}) == MapSeq(UrlChar, v)
  {
    RTrimRun(MapSeq(UrlChar, v), Padding(n), {PadChar});
  }

  lemma UrlCharsSafe(v: seq<sextet>)
    ensures forall i :: 0 <= i < |v| ==> IsUrlSafe(MapSeq(UrlChar, v)[i])
  {
  }

  /** `urlSafeEncode`: the URL-safe alphabet of RFC 4648 section 5, padding removed. */
  function UrlSafeEncode(m: seq<byte>): (r: seq<byte>)
    ensures r == MapSeq(UrlChar, Sextets(m))
    ensures |r| == (4 * |m| + 2) / 3
    ensures forall i :: 0 <= i < |r| ==> IsUrlSafe(r[i])
  {
    var v := Sextets(m);
    assert Base64Encode(m) == MapSeq(StdChar, v) + Padding(|m|);
    ToUrlAlphabet(v, |m|);
    DropPadding(v, |m|);
    UrlCharsSafe(v);
    RTrim(Strtr(Base64Encode(m), [Plus, Slash], [Minus, Underscore]), {PadChar})
  }

  /**
   * `urlSafeDecode`: map '-' and '_' back and run PHP's lenient decoder.  It
   * never fails: at most three bytes come out for every four going in.
   */
  function UrlSafeDecode(m: seq<byte>): (r: seq<byte>)
    ensures |r| <= 3 * |m| / 4
  {
    var v := DecodeValues(Strtr(m, [Minus, Underscore], [Plus, Slash]));
    QuarterMonotone(|v|, |m|);
    Base64Decode(Strtr(m, [Minus, Underscore], [Plus, Slash]))
  }

  lemma QuarterMonotone(a: nat, b: nat)
    requires a <= b
    ensures 3 * a / 4 <= 3 * b / 4
  {
  }

  /** `urlSafeDecode(urlSafeEncode($m)) === $m` for every byte string. */
  lemma UrlSafeRoundTrip(m: seq<byte>)
    ensures UrlSafeDecode(UrlSafeEncode(m)) == m
  {
    FromUrlAlphabet(Sextets(m));
    DecodeValuesOfChars(Sextets(m));
    DecodeSextetsInverse(m);
  }

  /** The encoder never emits '+', '/', '=' or the token separator '|'. */
  lemma UrlSafeEncodeAvoids(m: seq<byte>)
    ensures Plus !in UrlSafeEncode(m) && Slash !in UrlSafeEncode(m)
    ensures PadChar !in UrlSafeEncode(m) && Pipe !in UrlSafeEncode(m)
  {
  }

  /** The decimal form of a timestamp, as bytes (`session_id() . $seed . $t`). */
  function TimestampBytes(t: nat): (r: seq<byte>)
    ensures Pipe !in r
  {
    AsciiBytes(Decimal(t))
  }

  /**
   * `createToken()`: with seed = urlSafeEncode(random bytes) and t the time,
   * urlSafeEncode(urlSafeEncode(hmac(secret, session . seed . t)) . '|' . seed . '|' . t).
   */
  function CreateToken(hmac: Hmac, secret: seq<byte>, sessionId: seq<byte>,
                       randomBytes: seq<byte>, t: nat): (token: seq<byte>)
    ensures forall i :: 0 <= i < |token| ==> IsUrlSafe(token[i])
    ensures var seed := UrlSafeEncode(randomBytes);
      var ts := TimestampBytes(t);
      UrlSafeDecode(token) == UrlSafeEncode(hmac(secret, sessionId + seed + ts)) + [Pipe] + seed + [Pipe] + ts
  {
    var seed := UrlSafeEncode(randomBytes);
    var ts := TimestampBytes(t);
    var hash := UrlSafeEncode(hmac(secret, sessionId + seed + ts));
    UrlSafeRoundTrip(hash + [Pipe] + seed + [Pipe] + ts);
    UrlSafeEncode(hash + [Pipe] + seed + [Pipe] + ts)
  }

  /**
   * `validateToken($token)`: the decoded token must split on '|' into exactly
   * three parts, and the first must decode to the HMAC of the session id and
   * the other two.  The time is hashed only, never compared with the clock.
   */
  function ValidateToken(hmac: Hmac, secret: seq<byte>, sessionId: seq<byte>,
                         token: seq<byte>): (valid: bool)
    ensures valid ==> Count(Pipe, UrlSafeDecode(token)) == 2
  {
    var parts := Explode(Pipe, UrlSafeDecode(token));
    |parts| == 3 && hmac(secret, sessionId + parts[1] + parts[2]) == UrlSafeDecode(parts[0])
  }

  /**
   * What validateToken decides once the decoded token is known to be three
   * '|'-free parts joined by '|': whether the first part decodes to the HMAC.
   */
  lemma {:induction false} ValidateTokenParts(hmac: Hmac, secret: seq<byte>, sessionId: seq<byte>,
                                              token: seq<byte>, hash: seq<byte>, seed: seq<byte>, ts: seq<byte>)
    requires Pipe !in hash && Pipe !in seed && Pipe !in ts
    requires UrlSafeDecode(token) == hash + [Pipe] + seed + [Pipe] + ts
    ensures ValidateToken(hmac, secret, sessionId, token)
        <==> UrlSafeDecode(hash) == hmac(secret, sessionId + seed + ts)
  {
    var parts := [hash, seed, ts];
    assert Implode(Pipe, parts) == UrlSafeDecode(token) by {
      assert parts[1..] == [seed, ts] && [seed, ts][1..] == [ts];
      assert Implode(Pipe, [ts]) == ts;
      assert Implode(Pipe, [seed, ts]) == seed + [Pipe] + ts;
      assert Implode(Pipe, parts) == hash + [Pipe] + (seed + [Pipe] + ts);
      assert hash + [Pipe] + (seed + [Pipe] + ts) == hash + [Pipe] + seed + [Pipe] + ts;
    }
    ExplodeImplode(Pipe, parts);
    assert Explode(Pipe, UrlSafeDecode(token)) == parts;
  }

  /**
   * A token created for a session validates for that session and secret, at
   * any later time: its three components are URL-safe or decimal, so none holds '|'.
   */
  lemma {:induction false} CreatedTokenValidates(hmac: Hmac, secret: seq<byte>, sessionId: seq<byte>,
                                                 randomBytes: seq<byte>, t: nat)
    ensures ValidateToken(hmac, secret, sessionId, CreateToken(hmac, secret, sessionId, randomBytes, t))
  {
    var seed := UrlSafeEncode(randomBytes);
    var ts := TimestampBytes(t);
    var mac := hmac(secret, sessionId + seed + ts);
    var hash := UrlSafeEncode(mac);
    var token := CreateToken(hmac, secret, sessionId, randomBytes, t);
    UrlSafeEncodeAvoids(randomBytes);
    UrlSafeEncodeAvoids(mac);
    UrlSafeRoundTrip(mac);
    ValidateTokenParts(hmac, secret, sessionId, token, hash, seed, ts);
  }

  /** The 67 characters of the default-password alphabet ('/' occurs twice). */
  const PasswordChars: string := "abcdefghijklmnopqrstuvwxyzABCDEFGHIJKLMNOPQRSTUVWXYZ0123456789/*-/\\"

  /** `perm` lists every position of an alphabet of n characters exactly once. */
  predicate IsPermutation(perm: seq<nat>, n: nat) {
    && |perm| == n
    && (forall i :: 0 <= i < n ==> perm[i] < n)
    && (forall i, j :: 0 <= i < j < n ==> perm[i] != perm[j])
  }

  /** The alphabet rearranged by `perm`: what `str_shuffle($chars)` returns. */
  function Shuffle(chars: string, perm: seq<nat>): (r: string)
    requires IsPermutation(perm, |chars|)
    ensures |r| == |chars|
  {
    seq(|chars|, i requires 0 <= i < |chars| => chars[perm[i]])
  }

  /**
   * `generateDefaultPassword($length)`: the first `length` characters of the
   * alphabet shuffled by `perm`, the permutation `str_shuffle` drew.
   */
  function GenerateDefaultPassword(length: int, perm: seq<nat>): (password: string)
    requires IsPermutation(perm, |PasswordChars|)
    ensures 0 <= length ==> |password| == (if length < 67 then length else 67)
    ensures length < 0 ==> |password| == (if 67 + length < 0 then 0 else 67 + length)
    ensures forall i :: 0 <= i < |password| ==> password[i] == PasswordChars[perm[i]]
    ensures forall i, j :: 0 <= i < j < |password| ==> perm[i] != perm[j]
  {
    PasswordCharsLength();
    Substr(Shuffle(PasswordChars, perm), 0, length)
  }

  lemma PasswordCharsLength()
    ensures |PasswordChars| == 67
  {
  }

  /** Every character of a default password comes from the alphabet. */
  lemma PasswordFromAlphabet(length: int, perm: seq<nat>)
    requires IsPermutation(perm, |PasswordChars|)
    ensures forall c :: c in GenerateDefaultPassword(length, perm) ==> c in PasswordChars
  {
  }
}
