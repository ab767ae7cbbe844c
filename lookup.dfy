/**
  `busca_cep` as a pure pipeline: validate, build the form payload, post it, and
  turn the HTTP outcome into the first address record or an error. The network
  is a parameter, `exchange`, that maps the request the library would send to
  the outcome it would see; the result depends on `exchange` only through that
  one request, and not at all when validation rejects the input.
 */
module Lookup {
  import opened Wrappers
  import opened CepErrors
  import opened Records
  import opened Validation

  /** The Correios endpoint every lookup posts to. */
  const Endpoint: string := "https://buscacepinter.correios.com.br/app/consulta/html/consulta-detalhes-cep.php"

  const PayloadKeys: set<string> := {"endereco", "tipoCEP", "cepaux", "mensagem_alerta", "pagina", "cep"}

  const StatusPrefix: string := "Erro ao buscar CEP: "

  /** The form-encoded POST the library issues. */
  datatype Request = Post(url: string, form: map<string, string>)

  /** An HTTP status as `http::StatusCode` holds it: a code from 100 to 999. */
  type StatusNum = n: int | 100 <= n <= 999 witness 200

  /** A response status with the canonical reason phrase the HTTP library knows for it, if any. */
  datatype StatusCode = StatusCode(code: StatusNum, canonicalReason: Option<string>)

  /**
    What sending the request yields: a transport error with its text, or a
    response with its status and what reading and decoding its body gives:
    the envelope, or `None` when `text()` fails or the JSON does not fit
    `RespostaAPI`. The body is read only when the status is a success.
   */
  datatype HttpOutcome =
    | SendFailed(detail: string)
    | Received(status: StatusCode, body: Option<RespostaApi>)

  /** The form payload of `busca_cep`: the code twice, and four fixed fields. */
  function Payload(cep: string): (p: map<string, string>)
    ensures p.Keys == PayloadKeys && |p| == 6
    ensures p["endereco"] == cep && p["cep"] == cep
    ensures p["tipoCEP"] == "ALL" && p["cepaux"] == "" && p["mensagem_alerta"] == ""
    ensures p["pagina"] == "/app/endereco/index.php"
  {
    var p := map[
      "endereco" := cep,
      "tipoCEP" := "ALL",
      "cepaux" := "",
      "mensagem_alerta" := "",
      "pagina" := "/app/endereco/index.php",
      "cep" := cep];
    assert p.Keys == PayloadKeys;
    PayloadKeysCount();
    p
  }

  lemma PayloadKeysCount()
    ensures |PayloadKeys| == 6
  {
    var a := {"endereco"};
    var b := a + {"tipoCEP"};
    var c := b + {"cepaux"};
    var d := c + {"mensagem_alerta"};
    var e := d + {"pagina"};
    assert "tipoCEP" != "endereco";
    assert |b| == 2;
    assert "cepaux"[1] != "endereco"[1] && "cepaux"[0] != "tipoCEP"[0];
    assert |c| == 3;
    assert "mensagem_alerta"[0] != "endereco"[0];
    assert "mensagem_alerta"[0] != "tipoCEP"[0];
    assert "mensagem_alerta"[0] != "cepaux"[0];
    assert |d| == 4;
    assert "pagina"[0] != "endereco"[0] && "pagina"[0] != "tipoCEP"[0];
    assert "pagina"[0] != "cepaux"[0] && "pagina"[0] != "mensagem_alerta"[0];
    assert |e| == 5;
    assert |"cep"| != |"endereco"| && |"cep"| != |"tipoCEP"| && |"cep"| != |"cepaux"|;
    assert |"cep"| != |"mensagem_alerta"| && |"cep"| != |"pagina"|;
    assert e + {"cep"} == PayloadKeys;
  }

  /** The request `busca_cep` sends for a code; it is built only once the code is valid. */
  function RequestFor(cep: string): (r: Option<Request>)
    ensures r.Some? <==> ValidCep(cep)
    ensures r.Some? ==> r.value == Post(Endpoint, Payload(cep))
    ensures r.Some? ==> r.value.url == Endpoint && r.value.form.Keys == PayloadKeys
    ensures r.Some? ==> "cep" in r.value.form && r.value.form["cep"] == cep
    ensures r.Some? ==> "endereco" in r.value.form && r.value.form["endereco"] == cep
  {
    match Validate(cep)
    case Err(_) => None
    case Ok(_) => Some(Post(Endpoint, Payload(cep)))
  }

  /** Reading the code back from a payload: the partner of `Payload`. */
  function PayloadCode(p: map<string, string>): (r: Option<string>)
    ensures r.Some? ==> "cep" in p && r.value == p["cep"]
  {
    if "cep" in p && "endereco" in p && p["endereco"] == p["cep"] then Some(p["cep"]) else None
  }

  /** The payload carries the code it was built from. */
  lemma PayloadRoundTrip(cep: string)
    ensures PayloadCode(Payload(cep)) == Some(cep)
  {
  }

  /** Distinct codes post distinct forms. */
  lemma PayloadInjective(a: string, b: string)
    requires Payload(a) == Payload(b)
    ensures a == b
  {
    PayloadRoundTrip(a);
    PayloadRoundTrip(b);
  }

  /** `StatusCode::is_success`: the status is in the 2xx class, codes 200 to 299. */
  predicate IsSuccess(s: StatusCode)
    ensures IsSuccess(s) <==> s.code / 100 == 2
  {
    200 <= s.code <= 299
  }

  function DigitChar(d: nat): (c: char)
    requires d < 10
    ensures '0' <= c <= '9' && c as int - '0' as int == d
  {
    ('0' as int + d) as char
  }

  /** The three decimal digits of a status code. */
  function ThreeDigits(n: StatusNum): (t: string)
    ensures |t| == 3 && forall i :: 0 <= i < 3 ==> '0' <= t[i] <= '9'
  {
    [DigitChar(n / 100), DigitChar(n / 10 % 10), DigitChar(n % 10)]
  }

  /** The number an all-digit string spells in decimal. */
  function DecimalValue(t: string): nat
    requires forall i :: 0 <= i < |t| ==> '0' <= t[i] <= '9'
  {
    if t == [] then 0 else DecimalValue(t[..|t| - 1]) * 10 + (t[|t| - 1] as int - '0' as int)
  }

  /** The digits of a status code spell that code back. */
  lemma ThreeDigitsRoundTrip(n: StatusNum)
    ensures DecimalValue(ThreeDigits(n)) == n
  {
    var t := ThreeDigits(n);
    assert t[..2][..1] == t[..1];
    assert t[..1][..0] == [];
    assert DecimalValue(t[..1]) == n / 100;
    assert DecimalValue(t[..2]) == n / 100 * 10 + n / 10 % 10;
  }

  /** A text that begins with the three digits of `code` and a space. */
  predicate ReportsStatus(t: string, code: StatusNum) {
    && |t| >= 4
    && (forall i :: 0 <= i < 3 ==> '0' <= t[i] <= '9')
    && DecimalValue(t[..3]) == code
    && t[3] == ' '
  }

  /**
    The status as the HTTP library displays it: the code's digits, a space, and
    the canonical reason, or a fixed placeholder for an unknown code.
   */
  function StatusText(s: StatusCode): (t: string)
    ensures ReportsStatus(t, s.code)
  {
    ThreeDigitsRoundTrip(s.code);
    var reason := match s.canonicalReason
      case Some(phrase) => phrase
      case None => "<unknown status code>";
    var t := ThreeDigits(s.code) + " " + reason;
    assert t[..3] == ThreeDigits(s.code);
    t
  }

  /**
    None of the three unwraps after a success status panics: `text()` gives the
    body, the body decodes as `RespostaAPI`, and `dados.first()` has a record.
   */
  predicate Decodable(o: HttpOutcome)
    ensures Decodable(o) <==>
      (o.Received? && IsSuccess(o.status) ==> o.body.Some? && First(o.body.value.dados).Some?)
  {
    o.Received? && IsSuccess(o.status) ==> o.body.Some? && |o.body.value.dados| > 0
  }

  /**
    Everything `busca_cep` does after sending: a transport error keeps its text,
    a status outside 2xx becomes "Erro ao buscar CEP: <status>", and a success
    returns the first record of the decoded envelope.
   */
  function HandleResponse(o: HttpOutcome): (r: Result<Cep, CepError>)
    requires Decodable(o)
    ensures r.Err? ==> r.error.HttpRequest?
    ensures r.Ok? <==> o.Received? && IsSuccess(o.status)
    ensures o.SendFailed? ==> r == Err(HttpRequest(o.detail))
    ensures o.Received? && !IsSuccess(o.status) ==>
              && r == Err(HttpRequest(StatusPrefix + StatusText(o.status)))
              && StatusPrefix <= r.error.msg
              && ReportsStatus(r.error.msg[|StatusPrefix|..], o.status.code)
    ensures r.Ok? ==> r.value == o.body.value.dados[0]
  {
    match o
    case SendFailed(detail) => Err(HttpRequest(detail))
    case Received(status, body) =>
      if !IsSuccess(status) then
        var msg := StatusPrefix + StatusText(status);
        assert msg[|StatusPrefix|..] == StatusText(status);
        Err(HttpRequest(msg))
      else
        Ok(FirstRecord(body.value))
  }

  /**
    `busca_cep`: the guards first; only a valid code has a payload built and a
    request sent, and the outcome of that one request decides the result.
   */
  function BuscaCep(cep: string, exchange: Request -> HttpOutcome): (r: Result<Cep, CepError>)
    requires ValidCep(cep) ==> Decodable(exchange(Post(Endpoint, Payload(cep))))
    ensures (r.Err? && r.error.InvalidInput?) <==> !ValidCep(cep)
    ensures !ValidCep(cep) ==> r == Err(Validate(cep).error)
    ensures ValidCep(cep) ==> r == HandleResponse(exchange(Post(Endpoint, Payload(cep))))
  {
    match RequestFor(cep)
    case None => Err(Validate(cep).error)
    case Some(request) => HandleResponse(exchange(request))
  }

  /** A rejected code never reaches the network: no two exchanges can tell it apart. */
  lemma RejectedBeforeRequest(cep: string, x1: Request -> HttpOutcome, x2: Request -> HttpOutcome)
    requires !ValidCep(cep)
    ensures BuscaCep(cep, x1) == BuscaCep(cep, x2)
    ensures BuscaCep(cep, x1).Err? && BuscaCep(cep, x1).error.InvalidInput?
  {
  }

  /** The empty code gets the "vazio" message, whatever the server would say. */
  lemma EmptyRejected(exchange: Request -> HttpOutcome)
    ensures BuscaCep("", exchange) == Err(InvalidInput(EmptyMessage))
  {
  }

  /** A non-empty code with a character outside '0'..'9' gets the digit message, whatever its length. */
  lemma NonDigitRejected(cep: string, i: nat, exchange: Request -> HttpOutcome)
    requires i < |cep| && !('0' <= cep[i] <= '9')
    ensures BuscaCep(cep, exchange) == Err(InvalidInput(NonDigitMessage))
  {
  }

  /** An all-digit code of any length but eight gets the length message. */
  lemma WrongLengthRejected(cep: string, exchange: Request -> HttpOutcome)
    requires |cep| > 0 && |cep| != CepLength
    requires forall i :: 0 <= i < |cep| ==> '0' <= cep[i] <= '9'
    ensures BuscaCep(cep, exchange) == Err(InvalidInput(LengthMessage))
  {
  }

  /** On a success status the result is a field-wise copy of the decoded envelope's first record. */
  lemma SuccessIsFirstRecord(cep: string, exchange: Request -> HttpOutcome, status: StatusCode, env: RespostaApi)
    requires ValidCep(cep)
    requires exchange(Post(Endpoint, Payload(cep))) == Received(status, Some(env))
    requires IsSuccess(status) && |env.dados| > 0
    ensures BuscaCep(cep, exchange) == Ok(env.dados[0])
  {
  }

  /** A status outside 2xx gives `HttpRequest` with "Erro ao buscar CEP: " and the status text. */
  lemma StatusFailure(cep: string, exchange: Request -> HttpOutcome, status: StatusCode, body: Option<RespostaApi>)
    requires ValidCep(cep)
    requires exchange(Post(Endpoint, Payload(cep))) == Received(status, body)
    requires !IsSuccess(status)
    ensures BuscaCep(cep, exchange) == Err(HttpRequest(StatusPrefix + StatusText(status)))
  {
  }

  /** The demonstration's lookup of "01310000" against a server that answers with one record. */
  lemma SingleRecordExample()
    ensures
      var record := Cep("SP", "São Paulo", "Praça da Sé", "Sé", "01310000");
      var answer := Received(StatusCode(200, Some("OK")), Some(RespostaApi(false, "", 1, [record])));
      BuscaCep("01310000", _ => answer) == Ok(record)
  {
    assert ValidCep("01310000");
  }
}
