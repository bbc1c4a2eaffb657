/** Request fields as the handlers see them. */
module Request {
  import opened Wrappers

  /** A request field read from a JSON body, a path or the session: absent, or a string. */
  type Param = Option<string>

  /** The handlers test fields with `!field`: a field is missing when JavaScript treats it
      as falsy, that is when it is absent or the empty string. */
  predicate Missing(field: Param): (r: bool)
    ensures r <==> field == None || field == Some("")
    ensures !r ==> |field.value| > 0
  {
    field.None? || field.value == ""
  }
}
