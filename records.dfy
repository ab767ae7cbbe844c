/**
  The address record `CEP`, its field-wise `Clone`, and the server's envelope
  `RespostaAPI`, as they stand once the JSON body has been decoded.
 */
module Records {
  import opened Wrappers

  /** An unsigned 32-bit count, the width of the envelope's `total`. */
  type U32 = n: int | 0 <= n < 0x1_0000_0000

  /** One address as the server returns it; no field is checked. */
  datatype Cep = Cep(
    uf: string,
    localidade: string,
    logradouro: string,
    bairro: string,
    cep: string)

  /** The decoded response envelope; only `dados` is consulted by the lookup. */
  datatype RespostaApi = RespostaApi(
    erro: bool,
    mensagem: string,
    total: U32,
    dados: seq<Cep>)

  /** `Clone for CEP`: a new record built field by field from the old one. */
  function Clone(c: Cep): (r: Cep)
    ensures r.uf == c.uf && r.localidade == c.localidade && r.logradouro == c.logradouro
    ensures r.bairro == c.bairro && r.cep == c.cep
    ensures r == c
  {
    Cep(c.uf, c.localidade, c.logradouro, c.bairro, c.cep)
  }

  /** A slice's `first()`: the head of the sequence, or nothing when it is empty. */
  function First(dados: seq<Cep>): (r: Option<Cep>)
    ensures r.Some? <==> |dados| > 0
    ensures r.Some? ==> r.value == dados[0]
  {
    if |dados| == 0 then None else Some(dados[0])
  }

  /**
    `dados.first().unwrap().clone()`: the record the lookup returns. The source
    panics on an empty `dados`, so the caller must rule that out.
   */
  function FirstRecord(env: RespostaApi): (r: Cep)
    requires |env.dados| > 0
    ensures r in env.dados && r == env.dados[0]
  {
    Clone(First(env.dados).value)
  }
}
