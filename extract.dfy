/** `extract_text_from_url`: one fetch outcome reduced to bounded page text or
    the failure sentinel `None`. */
module Extract {
  import opened Wrappers

  /** The slice bound in `text[:10000]`. */
  const MaxPageChars := 10000

  /** What the HTTP GET produced: a `RequestException` (connection error,
      invalid URL, timeout, ...) or a response with its status code and the
      plain text the HTML parser extracted from its body. */
  datatype FetchResponse = TransportError | Response(status: int, pageText: string)

  /** `raise_for_status` raises for client (4xx) and server (5xx) errors only. */
  function RaisesForStatus(status: int): (raises: bool)
    ensures raises ==> !(200 <= status < 300)
    ensures 300 <= status < 400 ==> !raises
  {
    400 <= status < 600
  }

  /** Python's `text[:MaxPageChars]`, which keeps a shorter text whole. */
  function Truncate(text: string): (r: string)
    ensures r <= text
    ensures |r| == if |text| <= MaxPageChars then |text| else MaxPageChars
  {
    if |text| <= MaxPageChars then text else text[..MaxPageChars]
  }

  function ExtractText(response: FetchResponse): (r: Option<string>)
    ensures r.None? <==> response.TransportError? || RaisesForStatus(response.status)
    ensures r.Some? ==> r.value <= response.pageText && |r.value| <= MaxPageChars
    ensures r.Some? && |response.pageText| <= MaxPageChars ==> r.value == response.pageText
    ensures r.Some? && |response.pageText| > MaxPageChars ==> |r.value| == MaxPageChars
  {
    match response
    case TransportError => None
    case Response(status, pageText) =>
      if RaisesForStatus(status) then None else Some(Truncate(pageText))
  }
}
