/**
 * The two domain failures of the article service, with the messages their
 * exceptions carry, and the result type the service returns instead of
 * throwing.
 */
module Errors {
  import opened Common

  const NotFoundPrefix := "Article id is not found! id: "
  const OutdatedPrefix := "You need to increase version number or article has already been changed! Current version: "

  /** `ArticleNotFoundException(id)` and `OutdatedUpdateArticleException(version)`. */
  datatype ArticleError =
    | NotFound(id: Id)
    | Outdated(currentVersion: int)
  {
    /** The exception's message: a fixed text followed by the id or the stored version. */
    function Message(): (m: string)
      ensures NotFound? ==> m == NotFoundPrefix + id
      ensures Outdated? ==> m == OutdatedPrefix + LongToString(currentVersion)
    {
      match this
      case NotFound(id) => NotFoundPrefix + id
      case Outdated(v) => OutdatedPrefix + LongToString(v)
    }
  }

  /** A value, or the error that replaced it. */
  datatype Result<T> = Ok(value: T) | Err(error: ArticleError)

  function DigitChar(d: nat): (c: char)
    requires d < 10
    ensures '0' <= c <= '9'
  {
    ('0' as int + d) as char
  }

  /** The decimal digits of `n`, most significant first, without leading zeros. */
  function NatToString(n: nat): (r: string)
    ensures |r| > 0
    ensures forall i :: 0 <= i < |r| ==> '0' <= r[i] <= '9'
    ensures r[0] == '0' ==> n == 0
    ensures |r| > 1 ==> r[0] != '0'
    decreases n
  {
    if n < 10 then [DigitChar(n)] else NatToString(n / 10) + [DigitChar(n % 10)]
  }

  /** `Long.toString`: an optional minus sign, then the digits. */
  function LongToString(n: int): (r: string)
    ensures |r| > 0
    ensures r[0] == '-' <==> n < 0
  {
    if n < 0 then "-" + NatToString(-n) else NatToString(n)
  }

  /** The number a string of decimal digits denotes. */
  function ParseDigits(s: string): nat
    requires forall i :: 0 <= i < |s| ==> '0' <= s[i] <= '9'
    decreases |s|
  {
    if s == [] then 0
    else ParseDigits(s[..|s| - 1]) * 10 + (s[|s| - 1] as int - '0' as int)
  }

  /** The digits written for a version read back as that version. */
  lemma {:induction false} NatToStringRoundTrip(n: nat)
    ensures ParseDigits(NatToString(n)) == n
    decreases n
  {
    if n >= 10 {
      NatToStringRoundTrip(n / 10);
      var r := NatToString(n);
      assert r[..|r| - 1] == NatToString(n / 10);
    }
  }

  /**
   * A message names what failed: the id of a missing article follows the
   * not-found text, and the stored version can be read back from an outdated
   * update's message.
   */
  lemma MessageNamesTheCause(e: ArticleError)
    ensures e.NotFound? ==> e.Message()[|NotFoundPrefix|..] == e.id
    ensures e.Outdated? && e.currentVersion >= 0 ==>
              ParseDigits(e.Message()[|OutdatedPrefix|..]) == e.currentVersion
  {
    if e.Outdated? && e.currentVersion >= 0 {
      NatToStringRoundTrip(e.currentVersion);
      assert e.Message()[|OutdatedPrefix|..] == NatToString(e.currentVersion);
    }
  }

  /** The messages the service tests expect. */
  lemma MessagesOfTheTests()
    ensures NotFound("1234").Message() == "Article id is not found! id: 1234"
    ensures Outdated(1).Message() == "You need to increase version number or article has already been changed! Current version: 1"
    ensures Outdated(2).Message() == "You need to increase version number or article has already been changed! Current version: 2"
  {
  }
}
