/**
 * The signed HTTP client the publisher talks through, seen at the level of
 * logical requests and decoded responses. OAuth1 signing, the encoding of forms
 * and multipart bodies, headers and the network itself are not modelled: the
 * remote side is an oracle `server` that answers each request given everything
 * sent before it, and the client keeps a log of every exchange, in order.
 */
module Transport {
  import opened Wrappers

  newtype byte = b: int | 0 <= b < 256

  /**
   * The four requests the publisher sends. INIT, APPEND and FINALIZE go to the
   * media upload endpoint, a status update to the status update endpoint.
   */
  datatype Request =
    | Init(mediaType: string, totalBytes: nat)
    | Append(mediaId: string, segmentIndex: nat, fileName: string, chunk: seq<byte>)
    | Finalize(mediaId: string)
    | StatusUpdate(status: string, mediaIds: string)

  /**
   * A response body that could be read, seen through the two JSON decodings the
   * publisher applies: as the INIT reply (None when decoding fails, else its
   * `media_id_string` field, "" when that field is absent) and as the status
   * update reply (None when decoding fails, else its `id` field, 0 when absent).
   */
  datatype Body = Body(mediaIdString: Option<string>, id: Option<int>)

  /**
   * What sending a request yields: the transport failed, or a status code and a
   * body that could be read (Some) or not (None).
   */
  datatype Response =
    | TransportError
    | Response(statusCode: int, body: Option<Body>)

  datatype Exchange = Exchange(request: Request, response: Response)

  /** The signed client: sends requests to the remote side and records each exchange. */
  class Client {
    /** How the remote side answers a request, given the exchanges before it. */
    const server: (seq<Exchange>, Request) -> Response
    /** Every exchange so far, oldest first. */
    var log: seq<Exchange>

    /** Every recorded response is the one the remote side gave at that point. */
    ghost predicate Valid()
      reads this
    {
      forall i | 0 <= i < |log| :: log[i].response == server(log[..i], log[i].request)
    }

    constructor (server: (seq<Exchange>, Request) -> Response)
      ensures this.server == server && log == [] && Valid()
    {
      this.server := server;
      log := [];
    }

    /** `httpClient.Do`: one request out, one response back, recorded in the log. */
    method Do(request: Request) returns (response: Response)
      requires Valid()
      modifies this
      ensures Valid()
      ensures response == server(old(log), request)
      ensures log == old(log) + [Exchange(request, response)]
    {
      response := server(log, request);
      log := log + [Exchange(request, response)];
      assert forall i | 0 <= i < |old(log)| :: log[..i] == old(log)[..i];
    }
  }
}
