/**
  The two-constant `SNSActionEncoding` enum of the SES model: its string form
  and the strict parser `fromValue`. A Java `null` argument is `Null`.
 */
module SnsActionEncoding {
  import opened JavaRuntime

  datatype Encoding = UTF8 | Base64

  /** The wire value carried by each constant (`toString`). */
  function ToString(e: Encoding): (s: string)
    ensures s != ""
    ensures s == "UTF-8" <==> e == UTF8
    ensures s == "Base64" <==> e == Base64
  {
    match e
    case UTF8 => "UTF-8"
    case Base64 => "Base64"
  }

  /** `fromValue`: exact, case-sensitive match against the two wire values. */
  function FromValue(value: Nullable<string>): (r: Result<Encoding>)
    ensures r.Ok? <==> value == NonNull("UTF-8") || value == NonNull("Base64")
    ensures r.Throws? ==> r.ex == IllegalArgument
    ensures r.Ok? ==> value == NonNull(ToString(r.value))
  {
    if value.Null? || value.get == "" then Throws(IllegalArgument)
    else if value.get == "UTF-8" then Ok(UTF8)
    else if value.get == "Base64" then Ok(Base64)
    else Throws(IllegalArgument)
  }

  /** Parsing the string form of a constant gives the constant back. */
  lemma RoundTrip(e: Encoding)
    ensures FromValue(NonNull(ToString(e))) == Ok(e)
  {
  }

  /** The string form is injective, so it identifies the constant. */
  lemma ToStringInjective(e1: Encoding, e2: Encoding)
    ensures ToString(e1) == ToString(e2) ==> e1 == e2
  {
    if e1 != e2 {
      assert ToString(e1)[0] != ToString(e2)[0];
    }
  }

  /** `null` and the empty string are rejected, and so is every string other
      than the two wire values: the constant name "UTF8" and other casings. */
  lemma RejectsEverythingElse(s: string)
    requires s != "UTF-8" && s != "Base64"
    ensures FromValue(Null) == Throws(IllegalArgument)
    ensures FromValue(NonNull(s)) == Throws(IllegalArgument)
    ensures FromValue(NonNull("UTF8")).Throws? && FromValue(NonNull("utf-8")).Throws?
    ensures FromValue(NonNull("base64")).Throws?
  {
  }
}
