# ceprustico in Dafny

A model of `busca_cep`, the one operation of the ceprustico library: it looks up a
Brazilian postal code (CEP) with the Correios web service. The operation has four steps.
1. It checks the input string with three ordered guards: non-empty, then only decimal
   digits, then length 8.
2. It builds a fixed six-field form payload that echoes the code twice.
3. It posts the payload and maps a non-success HTTP status to an error.
4. It returns a field-wise copy of the first address record in the decoded envelope.

The model is pure, like the Rust code, which has no loops and no mutable state.
- `wrappers.dfy`: `Option` and `Result`.
- `errors.dfy` (module `CepErrors`): `CepError`, its `Display` text, and a parser that
  reads the text back.
- `records.dfy` (module `Records`): the `CEP` record, `Clone`, the `RespostaAPI`
  envelope, and the first-record selection.
- `validation.dfy` (module `Validation`): the guards. Rust's `is_empty` and `len`
  count UTF-8 bytes, while `chars()` walks Unicode scalar values. So the byte length is
  modelled as the sum of each character's UTF-8 width. `is_digit(10)` is modelled through
  `to_digit`'s wrapping 32-bit subtraction.
- `lookup.dfy` (module `Lookup`): the payload, the HTTP status, and the pipeline
  `BuscaCep`. The network is a parameter `exchange: Request -> HttpOutcome`: it maps the
  request the library would send to the outcome the library would see. The result
  depends on `exchange` only through that one request. For a rejected code it does not
  depend on `exchange` at all.

Three behaviours of the code shape the model.
- A non-success status gives the text `"Erro ao buscar CEP: "` followed by the status's
  display.
- The length guard counts bytes (`len()`). On every input that reaches that guard, bytes
  and characters agree, and `Validation.DigitsByteLen` proves it.
- A failed `text()`, malformed JSON and an empty `dados` make the Rust code panic. A
  response's body is `None` when `text()` or the decoding fails. The precondition
  `Decodable` requires, on a success status, a decoded body with a non-empty `dados`.

## Types

| type | source | holds |
|---|---|---|
| `CepErrors.CepError` | src/lib.rs:6-11 | the two error kinds, `InvalidInput` and `HttpRequest`, each with its message |
| `Records.Cep` | src/lib.rs:39-47 | the five text fields of an address record: `uf`, `localidade`, `logradouro`, `bairro`, `cep` |
| `Records.RespostaApi` | src/lib.rs:31-37 | the decoded envelope: `erro`, `mensagem`, a 32-bit `total` and the sequence `dados` of records |
| `Lookup.StatusCode` | src/lib.rs:100-101 | a status code from 100 to 999 with its canonical reason phrase, if the HTTP library knows one |
| `Lookup.HttpOutcome` | src/lib.rs:95-106 | what sending yields: a transport error's text, or a status with the decoded envelope, or `None` when `text()` or the JSON decoding fails |
| `Lookup.Request` | src/lib.rs:95-97 | a form POST: the URL and the form's key-value map |

## Model

| member | source | states |
|---|---|---|
| `CepErrors.Display` | src/lib.rs:13-20 | an `InvalidInput` shows as "Erro de entrada: " followed by its message; an `HttpRequest` shows as "Erro de requisição HTTP: " followed by its message |
| `CepErrors.PrefixesDiffer` | src/lib.rs:16-17 | neither display prefix is a prefix of the other followed by any message |
| `CepErrors.DisplayRoundTrip` | src/lib.rs:15-18 | parsing a displayed error gives back the same kind and message, so the two prefixes keep the kinds apart |
| `CepErrors.DisplayInjective` | src/lib.rs:15-18 | two errors with the same display text are equal |
| `Records.Clone` | src/lib.rs:50-60 | the clone agrees with the original on all five fields, so it equals the original |
| `Records.First` | src/lib.rs:108 | `first()` is present exactly when `dados` is non-empty, and then it is `dados[0]` |
| `Records.FirstRecord` | src/lib.rs:108 | for a non-empty `dados`, the returned record is an element of `dados`, namely `dados[0]` |
| `Validation.ToDigit` | src/lib.rs:77 | `to_digit(10)`, with its wrapping 32-bit subtraction, succeeds exactly on '0'..'9' and gives the digit's value |
| `Validation.Utf8Width` | src/lib.rs:82 | a character takes 1 to 4 bytes, and exactly 1 when it is ASCII |
| `Validation.IsDigit` | src/lib.rs:77 | `is_digit(10)` holds exactly for '0'..'9' |
| `Validation.AllDigits` | src/lib.rs:77 | `chars().all(...)` over `is_digit(10)` holds exactly when every character is one of '0'..'9' |
| `Validation.ByteLen` | src/lib.rs:72-82 | `len()`, the UTF-8 byte length, is never below the character count, and it is zero (so `is_empty()` holds) exactly for the string with no characters |
| `Validation.ByteLenIsCharCount` | src/lib.rs:82 | byte length equals character count exactly when every character is ASCII (both directions) |
| `Validation.DigitsByteLen` | src/lib.rs:77-84 | for a string that passes the digit guard, `len()` is its character count |
| `Validation.Validate` | src/lib.rs:72-84 | an empty input gets the "vazio" message; a non-empty input with any char outside '0'..'9' gets the "apenas dígitos" message whatever its length; an all-digit input whose length is not 8 gets the "8 dígitos" message; every rejection is `InvalidInput`; the input passes exactly when it is 8 ASCII digits |
| `Validation.DigitGuardBeforeLengthGuard` | src/lib.rs:77-84 | "12a" gets the digit message, not the length message; "1234567" gets the length message; "01310000" passes |
| `Validation.NonAsciiDigitRejected` | src/lib.rs:77-79 | an input with any non-ASCII character, including a non-ASCII digit, gets the digit message |
| `Lookup.Payload` | src/lib.rs:86-93 | the payload has exactly six keys; `endereco` and `cep` both equal the code; `tipoCEP` is "ALL", `cepaux` and `mensagem_alerta` are empty, and `pagina` is "/app/endereco/index.php" |
| `Lookup.PayloadKeysCount` | src/lib.rs:86-93 | the six payload keys are pairwise distinct |
| `Lookup.RequestFor` | src/lib.rs:72-97 | a request exists exactly when the code is valid; it is the POST of the whole `Payload(code)` (all six fields) to the Correios endpoint, and its form carries the code as `cep` and as `endereco` |
| `Lookup.PayloadRoundTrip` | src/lib.rs:86-93 | the code can be read back from its payload |
| `Lookup.PayloadInjective` | src/lib.rs:86-93 | distinct codes give distinct payloads |
| `Lookup.IsSuccess` | src/lib.rs:100 | `is_success()` holds exactly for the 2xx class of status codes |
| `Lookup.Decodable` | src/lib.rs:105-108 | none of the three unwraps panics exactly when a success status comes with a body that was read and decoded, and its `dados` has a `first()` |
| `Lookup.ThreeDigitsRoundTrip` | src/lib.rs:101 | the three digits written for a status code spell that code in decimal |
| `Lookup.StatusText` | src/lib.rs:101 | the status display begins with the code's three decimal digits and a space |
| `Lookup.HandleResponse` | src/lib.rs:95-110 | a transport error keeps its text as `HttpRequest`; a status outside 2xx gives `HttpRequest("Erro ao buscar CEP: " + status display)`, whose digits spell the code; only a 2xx status succeeds, and that value is `dados[0]`; every error here is `HttpRequest` |
| `Lookup.BuscaCep` | src/lib.rs:69-111 | the result is `InvalidInput` exactly when the code is not 8 ASCII digits, and then it is the validator's error; for a valid code the result is the handled outcome of posting `Payload(code)` to the endpoint |
| `Lookup.RejectedBeforeRequest` | src/lib.rs:72-98 | for an invalid code, no two network behaviours give different results, so no request is consulted; the result is `InvalidInput` |
| `Lookup.EmptyRejected` | src/lib.rs:72-74 | the empty code gets `InvalidInput("CEP inválido. O CEP não pode ser vazio")` |
| `Lookup.NonDigitRejected` | src/lib.rs:77-79 | a code with a char outside '0'..'9' gets the "apenas dígitos" `InvalidInput`, whatever its length |
| `Lookup.WrongLengthRejected` | src/lib.rs:82-84 | a non-empty all-digit code whose length is not 8 gets the "8 dígitos" `InvalidInput` |
| `Lookup.SuccessIsFirstRecord` | src/lib.rs:105-110 | when the status is 2xx and the body decodes to an envelope with a non-empty `dados`, the lookup returns `dados[0]` |
| `Lookup.StatusFailure` | src/lib.rs:100-103 | when the status is outside 2xx, the lookup returns `HttpRequest("Erro ao buscar CEP: " + status display)` |
| `Lookup.SingleRecordExample` | src/main.rs:5-6 | looking up "01310000" against a server that answers 200 with one record returns that record |

## Left out

- The reqwest blocking client, `send()` and the HTTP transport: the network is the `exchange` parameter.
- `From<reqwest::Error>`: a transport failure arrives as `SendFailed(detail)`, where `detail` stands for the error's `to_string()`. That text comes from reqwest and is not modelled.
- The form encoding done by `.form(...)`, and the ordering of the JSON object's keys: the payload is a map from key to value.
- The text reading and serde JSON decoding themselves, including the `logradouroDNEC` alias for `logradouro`: a response carries their outcome, the decoded envelope or `None`.
- The panics on a failed `text()`, on malformed JSON and on an empty `dados`: the precondition `Decodable` of `HandleResponse` and `BuscaCep` excludes all three.
- `Lookup.StatusText`: assumes the http crate displays a status as its code, a space, and its canonical reason or "<unknown status code>". The reason table belongs to that crate, so a status carries its reason phrase as a field.
- `RespostaCorreios`: it is declared but never used by the lookup.
- `erro`, `mensagem` and `total` of the envelope: they are decoded but never consulted, so the model only carries them.
- The command-line demo in src/main.rs; only its input appears, in `Lookup.SingleRecordExample`.
- The empty test module.
- Idempotence of repeated calls: `BuscaCep` is a function, so equal inputs give equal results by construction.
