/**
  The error type of the lookup, `CepError`, and its `Display` text.
  Each kind is shown behind its own fixed prefix; `ParseDisplay` reads a shown
  error back, which makes precise that the two prefixes keep the kinds apart.
 */
module CepErrors {
  import opened Wrappers

  datatype CepError =
    | InvalidInput(msg: string)   // the code was rejected before any request
    | HttpRequest(msg: string)    // the transport failed or the status was not a success

  const InputPrefix: string := "Erro de entrada: "
  const HttpPrefix: string := "Erro de requisição HTTP: "

  /** The text `Display for CepError` writes: the kind's prefix, then the message. */
  function Display(e: CepError): (s: string)
    ensures e.InvalidInput? ==> InputPrefix <= s && s[|InputPrefix|..] == e.msg
    ensures e.HttpRequest? ==> HttpPrefix <= s && s[|HttpPrefix|..] == e.msg
  {
    match e
    case InvalidInput(msg) => InputPrefix + msg
    case HttpRequest(msg) => HttpPrefix + msg
  }

  /** Reads a displayed error back into its kind and message. */
  function ParseDisplay(s: string): (r: Option<CepError>)
    ensures r.Some? <==> InputPrefix <= s || HttpPrefix <= s
  {
    if InputPrefix <= s then Some(InvalidInput(s[|InputPrefix|..]))
    else if HttpPrefix <= s then Some(HttpRequest(s[|HttpPrefix|..]))
    else None
  }

  /** Neither prefix starts the other: they part at their ninth character. */
  lemma PrefixesDiffer(msg: string)
    ensures !(InputPrefix <= HttpPrefix + msg)
    ensures !(HttpPrefix <= InputPrefix + msg)
  {
    assert InputPrefix[8] == 'e' && HttpPrefix[8] == 'r';
    assert (HttpPrefix + msg)[8] == 'r';
    assert (InputPrefix + msg)[8] == 'e';
  }

  /** The displayed text determines the error: kind and message survive the round trip. */
  lemma DisplayRoundTrip(e: CepError)
    ensures ParseDisplay(Display(e)) == Some(e)
  {
    PrefixesDiffer(e.msg);
    var s := Display(e);
    match e
    case InvalidInput(msg) =>
      assert s[|InputPrefix|..] == msg;
    case HttpRequest(msg) =>
      assert !(InputPrefix <= s);
      assert s[|HttpPrefix|..] == msg;
  }

  /** Two errors that display alike are the same error. */
  lemma DisplayInjective(e1: CepError, e2: CepError)
    requires Display(e1) == Display(e2)
    ensures e1 == e2
  {
    DisplayRoundTrip(e1);
    DisplayRoundTrip(e2);
  }
}
