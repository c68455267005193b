/**
 * The media publisher of pkg/twitter/twitter.go: it posts an image with a caption
 * by a chunked upload (INIT, one APPEND per 500 KiB chunk, FINALIZE) followed by
 * a status update that references the uploaded media, and answers with the URL of
 * the new tweet. Every step stops the whole post at the first response it rejects.
 */
module Twitter {
  import opened Wrappers
  import opened Text
  import opened Transport

  /** Image bytes sent per APPEND request: 500 * 1024 = 512000 bytes. */
  const StepSize: nat := 512000

  const TweetUrlPrefix := "https://twitter.com/scallionfriends/status/"

  /** Which step of a post failed. */
  datatype Error =
    | ReadFileFailed
    | UnsupportedMediaType
    | InitFailed
    | AppendFailed
    | FinalizeFailed
    | PostFailed

  /**
   * The library calls the publisher makes that this model does not interpret:
   * `ioutil.ReadFile` (None for a read error), `mime.TypeByExtension` (the system
   * MIME table, "" for an unknown extension) and `path.Base`.
   */
  datatype Host = Host(
    readFile: string -> Option<seq<byte>>,
    typeByExtension: string -> string,
    baseName: string -> string)

  // ----- getMediaType -----

  /**
   * getMediaType: the MIME type registered for the last piece of `imagePath` split
   * at '.', an error when the table has none.
   */
  function MediaType(imagePath: string, typeByExtension: string -> string): (r: Result<string, Error>)
    ensures r.Success? ==> r.value != ""
    ensures r.Failure? ==> r.error == UnsupportedMediaType
  {
    var comps := Split(imagePath, '.');
    var extension := typeByExtension("." + comps[|comps| - 1]);
    if extension == "" then Failure(UnsupportedMediaType) else Success(extension)
  }

  /**
   * The MIME type is looked up for "." and the text after the last '.' of the path
   * (the whole path when it has no '.'), and the lookup decides the outcome: an
   * error exactly when the table answers "".
   */
  lemma MediaTypeOfExtension(imagePath: string, typeByExtension: string -> string, ext: string)
    requires IsLastField(ext, imagePath, '.')
    ensures MediaType(imagePath, typeByExtension).Success? <==> typeByExtension("." + ext) != ""
    ensures MediaType(imagePath, typeByExtension).Success? ==>
      MediaType(imagePath, typeByExtension).value == typeByExtension("." + ext)
  {
    var comps := Split(imagePath, '.');
    SplitLastField(imagePath, '.');
    LastFieldUnique(ext, comps[|comps| - 1], imagePath, '.');
    var mimeType := typeByExtension("." + ext);
    assert MediaType(imagePath, typeByExtension)
        == if mimeType == "" then Failure(UnsupportedMediaType) else Success(mimeType);
  }

  // ----- chunking for mediaAppend -----

  function Min(a: int, b: int): int
  {
    if a <= b then a else b
  }

  /** How many APPEND requests an image of `length` bytes takes: length / StepSize rounded up. */
  function ChunkCount(length: nat): (n: nat)
    ensures length <= n * StepSize
    ensures n > 0 ==> (n - 1) * StepSize < length
    ensures n == 0 <==> length == 0
  {
    (length + StepSize - 1) / StepSize
  }

  /**
   * The image cut into consecutive pieces of StepSize bytes; the last piece holds
   * what is left and may be shorter.
   */
  function Chunks(media: seq<byte>): (chunks: seq<seq<byte>>)
    ensures forall i | 0 <= i < |chunks| :: 0 < |chunks[i]| <= StepSize
    ensures forall i | 0 <= i < |chunks| - 1 :: |chunks[i]| == StepSize
    decreases |media|
  {
    if |media| == 0 then []
    else if |media| <= StepSize then [media]
    else [media[..StepSize]] + Chunks(media[StepSize..])
  }

  function Concat(chunks: seq<seq<byte>>): seq<byte>
  {
    if |chunks| == 0 then [] else chunks[0] + Concat(chunks[1..])
  }

  /** The chunks, in order, are the image: nothing lost, repeated or reordered. */
  lemma {:induction false} ConcatChunks(media: seq<byte>)
    ensures Concat(Chunks(media)) == media
    decreases |media|
  {
    if |media| > StepSize {
      ConcatChunks(media[StepSize..]);
      assert ([media[..StepSize]] + Chunks(media[StepSize..]))[1..] == Chunks(media[StepSize..]);
      assert media[..StepSize] + media[StepSize..] == media;
    }
  }

  /** There are length / StepSize rounded up chunks, none for an empty image. */
  lemma {:induction false} ChunksCount(media: seq<byte>)
    ensures |Chunks(media)| == ChunkCount(|media|)
    decreases |media|
  {
    if |media| > StepSize {
      ChunksCount(media[StepSize..]);
    }
  }

  /**
   * Chunk `s` is the slice [s * StepSize, min((s + 1) * StepSize, length)) of the
   * image, and that slice starts inside the image.
   */
  lemma {:induction false} ChunkRange(media: seq<byte>, s: nat)
    requires s < |Chunks(media)|
    ensures s * StepSize < |media|
    ensures Chunks(media)[s] == media[s * StepSize .. Min((s + 1) * StepSize, |media|)]
    decreases s
  {
    if s > 0 {
      var rest := media[StepSize..];
      ChunkRange(rest, s - 1);
      assert Chunks(media)[s] == Chunks(rest)[s - 1];
      assert rest[(s - 1) * StepSize .. Min(s * StepSize, |rest|)]
          == media[s * StepSize .. Min((s + 1) * StepSize, |media|)];
    }
  }

  // ----- the requests of one post -----

  /** The APPEND requests for `media`: chunk `s` goes out with segment_index `s`. */
  function AppendPlan(mediaId: string, fileName: string, media: seq<byte>): seq<Request>
  {
    var chunks := Chunks(media);
    seq(|chunks|, s requires 0 <= s < |chunks| => Append(mediaId, s, fileName, chunks[s]))
  }

  /**
   * Every request a post that meets no failure sends, in order: INIT, the APPENDs,
   * FINALIZE and the status update, all after INIT quoting the media id INIT gave.
   */
  function Plan(text: string, mediaType: string, fileName: string, media: seq<byte>, mediaId: string): seq<Request>
  {
    [Init(mediaType, |media|)] + AppendPlan(mediaId, fileName, media) + [Finalize(mediaId), StatusUpdate(text, mediaId)]
  }

  /** Where the parts of a plan stand in it. */
  lemma PlanParts(text: string, mediaType: string, fileName: string, media: seq<byte>, mediaId: string)
    ensures var plan := Plan(text, mediaType, fileName, media, mediaId);
      var appends := AppendPlan(mediaId, fileName, media);
      && |plan| == |appends| + 3
      && plan[0] == Init(mediaType, |media|)
      && (forall s | 0 <= s < |appends| :: plan[1 + s] == appends[s])
      && plan[|appends| + 1] == Finalize(mediaId)
      && plan[|appends| + 2] == StatusUpdate(text, mediaId)
  {
  }

  /** The requests a log records are, one for one, the first requests of `plan`. */
  ghost predicate Follows(sent: seq<Exchange>, plan: seq<Request>)
  {
    |sent| <= |plan| && forall i | 0 <= i < |sent| :: sent[i].request == plan[i]
  }

  /** The media id carried by a request sent after INIT. */
  function QuotedMediaId(request: Request): Option<string>
  {
    match request
    case Init(_, _) => None
    case Append(mediaId, _, _, _) => Some(mediaId)
    case Finalize(mediaId) => Some(mediaId)
    case StatusUpdate(_, mediaIds) => Some(mediaIds)
  }

  /**
   * The shape of a post's requests: one INIT announcing the image's length, then
   * ceil(length / StepSize) APPENDs with segment indexes 0, 1, 2, ... each carrying
   * its slice of the image under the same file name, then one FINALIZE and one
   * status update; every request after INIT quotes the same media id.
   */
  lemma PlanShape(text: string, mediaType: string, fileName: string, media: seq<byte>, mediaId: string)
    ensures var plan := Plan(text, mediaType, fileName, media, mediaId);
      && |plan| == ChunkCount(|media|) + 3
      && plan[0] == Init(mediaType, |media|)
      && (forall s | 0 <= s < ChunkCount(|media|) ::
            plan[1 + s] == Append(mediaId, s, fileName, media[s * StepSize .. Min((s + 1) * StepSize, |media|)]))
      && plan[|plan| - 2] == Finalize(mediaId)
      && plan[|plan| - 1] == StatusUpdate(text, mediaId)
      && (forall i | 1 <= i < |plan| :: QuotedMediaId(plan[i]) == Some(mediaId))
  {
    var plan := Plan(text, mediaType, fileName, media, mediaId);
    var appends := AppendPlan(mediaId, fileName, media);
    PlanParts(text, mediaType, fileName, media, mediaId);
    ChunksCount(media);
    forall s | 0 <= s < ChunkCount(|media|)
      ensures plan[1 + s] == Append(mediaId, s, fileName, media[s * StepSize .. Min((s + 1) * StepSize, |media|)])
    {
      ChunkRange(media, s);
    }
  }

  // ----- how each step judges its response -----

  /**
   * Whether the step that sent `x.request` goes on after `x.response`: the
   * transport worked, the body could be read, the status is below 400, and for
   * INIT the body decodes, for a status update the body decodes to a non-zero id.
   * FINALIZE does not look at the body beyond reading it.
   */
  predicate Accepted(x: Exchange)
  {
    x.response.Response? && var code := x.response.statusCode; var body := x.response.body;
      && body.Some?
      && code < 400
      && match x.request
         case Init(_, _) => body.value.mediaIdString.Some?
         case Append(_, _, _, _) => true
         case Finalize(_) => true
         case StatusUpdate(_, _) => body.value.id.Some? && body.value.id.value != 0
  }

  /** The error a post reports when the response to `request` is not accepted. */
  function StepError(request: Request): Error
  {
    match request
    case Init(_, _) => InitFailed
    case Append(_, _, _, _) => AppendFailed
    case Finalize(_) => FinalizeFailed
    case StatusUpdate(_, _) => PostFailed
  }

  /** The media id an accepted INIT response carries ("" for anything else). */
  function GrantedMediaId(x: Exchange): string
  {
    if x.request.Init? && Accepted(x) then x.response.body.value.mediaIdString.value else ""
  }

  /** The tweet id an accepted status update response carries (0 for anything else). */
  function GrantedTweetId(x: Exchange): int
  {
    if x.request.StatusUpdate? && Accepted(x) then x.response.body.value.id.value else 0
  }

  /** The public URL of tweet `id`. */
  function StatusUrl(id: int): string
  {
    TweetUrlPrefix + IntToString(id)
  }

  /** The tweet id can be read back from the URL, so different tweets get different URLs. */
  lemma StatusUrlRoundTrip(id: int)
    ensures var url := StatusUrl(id);
      |TweetUrlPrefix| < |url| && url[..|TweetUrlPrefix|] == TweetUrlPrefix && ParseInt(url[|TweetUrlPrefix|..]) == id
  {
    IntToStringRoundTrip(id);
    assert StatusUrl(id)[|TweetUrlPrefix|..] == IntToString(id);
  }

  // ----- abort on the first rejected response -----

  /**
   * How a post that got as far as INIT ends, given the exchanges it added to the
   * log (`sent`) and the plan for the media id INIT returned: the requests sent are
   * the first ones of the plan, every response but the last was accepted, and the
   * post succeeds exactly when the whole plan went through, with the URL of the
   * tweet the last response names; otherwise it fails with the error of the step
   * whose response was rejected, and nothing was sent after that response.
   */
  ghost predicate StoppedAtFirstRejection(sent: seq<Exchange>, r: Result<string, Error>, plan: seq<Request>)
    requires sent != []
  {
    && Follows(sent, plan)
    && (forall i | 0 <= i < |sent| - 1 :: Accepted(sent[i]))
    && (r.Success? <==> |sent| == |plan| && Accepted(sent[|sent| - 1]))
    && (r.Success? ==> r.value == StatusUrl(GrantedTweetId(sent[|sent| - 1])))
    && (r.Failure? ==> !Accepted(sent[|sent| - 1]) && r.error == StepError(sent[|sent| - 1].request))
  }

  /** A post whose INIT response is rejected has sent INIT and nothing else. */
  lemma InitRejected(x0: Exchange, appendPlan: seq<Request>, finalize: Request, update: Request,
                     plan: seq<Request>, r: Result<string, Error>)
    requires plan == [x0.request] + appendPlan + [finalize, update]
    requires !Accepted(x0) && r == Failure(StepError(x0.request))
    ensures StoppedAtFirstRejection([x0], r, plan)
  {
  }

  /** A post whose APPENDs stop at a rejected response has sent INIT and those APPENDs. */
  lemma AppendRejected(x0: Exchange, appends: seq<Exchange>, appendPlan: seq<Request>, finalize: Request,
                       update: Request, plan: seq<Request>, r: Result<string, Error>)
    requires plan == [x0.request] + appendPlan + [finalize, update]
    requires Accepted(x0)
    requires appends != [] && Follows(appends, appendPlan)
    requires forall i | 0 <= i < |appends| - 1 :: Accepted(appends[i])
    requires !Accepted(appends[|appends| - 1]) && r == Failure(StepError(appends[|appends| - 1].request))
    ensures var sent := [x0] + appends; sent[0] == x0 && StoppedAtFirstRejection(sent, r, plan)
  {
    var sent := [x0] + appends;
    assert forall i | 1 <= i < |sent| :: sent[i] == appends[i - 1] && plan[i] == appendPlan[i - 1];
  }

  /** The exchanges of an upload whose INIT and every APPEND were accepted. */
  ghost predicate Uploaded(sent: seq<Exchange>, x0: Exchange, appends: seq<Exchange>, appendPlan: seq<Request>)
  {
    && sent == [x0] + appends
    && Accepted(x0)
    && |appends| == |appendPlan| && Follows(appends, appendPlan)
    && forall i | 0 <= i < |appends| :: Accepted(appends[i])
  }

  /** A post whose FINALIZE response is rejected has sent the whole upload and FINALIZE. */
  lemma FinalizeRejected(uploaded: seq<Exchange>, x0: Exchange, appends: seq<Exchange>, x2: Exchange,
                         appendPlan: seq<Request>, update: Request, plan: seq<Request>, r: Result<string, Error>)
    requires plan == [x0.request] + appendPlan + [x2.request, update]
    requires Uploaded(uploaded, x0, appends, appendPlan)
    requires !Accepted(x2) && r == Failure(StepError(x2.request))
    ensures var sent := uploaded + [x2]; sent[0] == x0 && StoppedAtFirstRejection(sent, r, plan)
  {
    var sent := uploaded + [x2];
    assert forall i | 1 <= i < |uploaded| :: sent[i] == appends[i - 1] && plan[i] == appendPlan[i - 1];
  }

  /**
   * A post that reaches the status update has sent every request of the plan, and
   * its outcome is the status update's.
   */
  lemma UpdateAnswered(uploaded: seq<Exchange>, x0: Exchange, appends: seq<Exchange>, x2: Exchange, x3: Exchange,
                       appendPlan: seq<Request>, plan: seq<Request>, r: Result<string, Error>)
    requires plan == [x0.request] + appendPlan + [x2.request, x3.request]
    requires Uploaded(uploaded, x0, appends, appendPlan)
    requires Accepted(x2)
    requires Accepted(x3) ==> r == Success(StatusUrl(GrantedTweetId(x3)))
    requires !Accepted(x3) ==> r == Failure(StepError(x3.request))
    ensures var sent := uploaded + [x2] + [x3]; sent[0] == x0 && StoppedAtFirstRejection(sent, r, plan)
  {
    var sent := uploaded + [x2] + [x3];
    assert forall i | 1 <= i < |uploaded| :: sent[i] == appends[i - 1] && plan[i] == appendPlan[i - 1];
  }

  // ----- the publisher -----

  class Twitter {
    const httpClient: Client

    /** `New`, given the client already signed with the four secrets. */
    constructor (httpClient: Client)
      ensures this.httpClient == httpClient
    {
      this.httpClient := httpClient;
    }

    /**
     * `mediaInit`: announce an upload of `length` bytes of `mediaType` and learn
     * its media id; `x` is the exchange this adds to the log.
     */
    method MediaInit(length: nat, mediaType: string) returns (r: Result<string, Error>, ghost x: Exchange)
      requires httpClient.Valid()
      modifies httpClient
      ensures httpClient.Valid()
      ensures httpClient.log == old(httpClient.log) + [x]
      ensures x.request == Init(mediaType, length)
      ensures r.Success? <==> Accepted(x)
      ensures r.Success? ==> r.value == GrantedMediaId(x)
      ensures r.Failure? ==> r.error == InitFailed
    {
      var res := httpClient.Do(Init(mediaType, length));
      x := Exchange(Init(mediaType, length), res);
      match res {
        case TransportError =>
          return Failure(InitFailed), x;
        case Response(code, body) =>
          if body.None? {
            return Failure(InitFailed), x;
          }
          if code >= 400 {
            return Failure(InitFailed), x;
          }
          match body.value.mediaIdString {
            case None =>
              return Failure(InitFailed), x;
            case Some(mediaId) =>
              return Success(mediaId), x;
          }
      }
    }

    /**
     * `mediaAppend`: send chunk s = 0, 1, 2, ... of `media` as segment s, stopping
     * at the first response that is not accepted; `sent` are the exchanges this
     * adds to the log.
     */
    method MediaAppend(fileName: string, mediaId: string, media: seq<byte>)
      returns (r: Outcome<Error>, ghost sent: seq<Exchange>)
      requires httpClient.Valid()
      modifies httpClient
      ensures httpClient.Valid()
      ensures httpClient.log == old(httpClient.log) + sent
      ensures Follows(sent, AppendPlan(mediaId, fileName, media))
      ensures forall i | 0 <= i < |sent| - 1 :: Accepted(sent[i])
      ensures r.Pass? ==> |sent| == |AppendPlan(mediaId, fileName, media)| && forall i | 0 <= i < |sent| :: Accepted(sent[i])
      ensures r.Fail? ==> sent != [] && !Accepted(sent[|sent| - 1]) && r.error == AppendFailed
    {
      ghost var plan := AppendPlan(mediaId, fileName, media);
      sent := [];
      ChunksCount(media);
      var s := 0;
      while s * StepSize < |media|
        invariant httpClient.Valid()
        invariant httpClient.log == old(httpClient.log) + sent
        invariant |sent| == s <= |plan|
        invariant forall i | 0 <= i < s :: sent[i].request == plan[i] && Accepted(sent[i])
        decreases |media| - s * StepSize
      {
        var rangeBegin := s * StepSize;
        var rangeEnd := (s + 1) * StepSize;
        if rangeEnd > |media| {
          rangeEnd := |media|;
        }
        ChunkRange(media, s);
        var request := Append(mediaId, s, fileName, media[rangeBegin..rangeEnd]);
        assert request == plan[s];
        var res := httpClient.Do(request);
        sent := sent + [Exchange(request, res)];
        match res {
          case TransportError =>
            return Fail(AppendFailed), sent;
          case Response(code, body) =>
            if body.None? {
              return Fail(AppendFailed), sent;
            }
            if code >= 400 {
              return Fail(AppendFailed), sent;
            }
        }
        s := s + 1;
      }
      return Pass, sent;
    }

    /** `mediaFinilize`: close the upload of `mediaId`; `x` is the exchange this adds to the log. */
    method MediaFinalize(mediaId: string) returns (r: Outcome<Error>, ghost x: Exchange)
      requires httpClient.Valid()
      modifies httpClient
      ensures httpClient.Valid()
      ensures httpClient.log == old(httpClient.log) + [x]
      ensures x.request == Finalize(mediaId)
      ensures r.Pass? <==> Accepted(x)
      ensures r.Fail? ==> r.error == FinalizeFailed
    {
      var res := httpClient.Do(Finalize(mediaId));
      x := Exchange(Finalize(mediaId), res);
      match res {
        case TransportError =>
          return Fail(FinalizeFailed), x;
        case Response(code, body) =>
          if code >= 400 {
            return Fail(FinalizeFailed), x;
          }
          if body.None? {
            return Fail(FinalizeFailed), x;
          }
      }
      return Pass, x;
    }

    /**
     * `updateStatusWithMedia`: tweet `text` with the uploaded media and answer the
     * tweet's URL; `x` is the exchange this adds to the log.
     */
    method UpdateStatusWithMedia(text: string, mediaId: string) returns (r: Result<string, Error>, ghost x: Exchange)
      requires httpClient.Valid()
      modifies httpClient
      ensures httpClient.Valid()
      ensures httpClient.log == old(httpClient.log) + [x]
      ensures x.request == StatusUpdate(text, mediaId)
      ensures r.Success? <==> Accepted(x)
      ensures r.Success? ==> r.value == StatusUrl(GrantedTweetId(x))
      ensures r.Failure? ==> r.error == PostFailed
    {
      var res := httpClient.Do(StatusUpdate(text, mediaId));
      x := Exchange(StatusUpdate(text, mediaId), res);
      match res {
        case TransportError =>
          return Failure(PostFailed), x;
        case Response(code, body) =>
          if body.None? {
            return Failure(PostFailed), x;
          }
          if code >= 400 {
            return Failure(PostFailed), x;
          }
          match body.value.id {
            case None =>
              return Failure(PostFailed), x;
            case Some(id) =>
              if id == 0 {
                return Failure(PostFailed), x;
              }
              return Success(TweetUrlPrefix + IntToString(id)), x;
          }
      }
    }

    /**
     * `Post`: read the image, resolve its MIME type, then INIT, APPEND every chunk,
     * FINALIZE and update the status; `sent` are the exchanges this adds to the log.
     * Nothing is sent when the image cannot be read or its type is unknown;
     * otherwise what is sent follows the plan for the media id INIT returned, up to
     * the first rejected response.
     */
    method Post(text: string, imagePath: string, host: Host) returns (r: Result<string, Error>, ghost sent: seq<Exchange>)
      requires httpClient.Valid()
      modifies httpClient
      ensures httpClient.Valid()
      ensures httpClient.log == old(httpClient.log) + sent
      ensures host.readFile(imagePath).None? ==> r == Failure(ReadFileFailed) && sent == []
      ensures host.readFile(imagePath).Some? && MediaType(imagePath, host.typeByExtension).Failure? ==>
        r == Failure(UnsupportedMediaType) && sent == []
      ensures host.readFile(imagePath).Some? && MediaType(imagePath, host.typeByExtension).Success? ==>
        && sent != []
        && StoppedAtFirstRejection(sent, r,
             Plan(text, MediaType(imagePath, host.typeByExtension).value, host.baseName(imagePath),
                  host.readFile(imagePath).value, GrantedMediaId(sent[0])))
    {
      sent := [];
      var bytes := host.readFile(imagePath);
      if bytes.None? {
        return Failure(ReadFileFailed), sent;
      }
      var mediaType := MediaType(imagePath, host.typeByExtension);
      if mediaType.Failure? {
        return Failure(mediaType.error), sent;
      }
      var imageFileName := host.baseName(imagePath);
      var init, x0 := MediaInit(|bytes.value|, mediaType.value);
      ghost var mediaId := GrantedMediaId(x0);
      ghost var appendPlan := AppendPlan(mediaId, imageFileName, bytes.value);
      ghost var plan := Plan(text, mediaType.value, imageFileName, bytes.value, mediaId);
      assert plan == [x0.request] + appendPlan + [Finalize(mediaId), StatusUpdate(text, mediaId)];
      sent := [x0];
      if init.Failure? {
        InitRejected(x0, appendPlan, Finalize(mediaId), StatusUpdate(text, mediaId), plan, Failure(init.error));
        return Failure(init.error), sent;
      }

      var appended, appends := MediaAppend(imageFileName, init.value, bytes.value);
      assert old(httpClient.log) + [x0] + appends == old(httpClient.log) + ([x0] + appends);
      sent := [x0] + appends;
      if appended.Fail? {
        AppendRejected(x0, appends, appendPlan, Finalize(mediaId), StatusUpdate(text, mediaId), plan,
          Failure(appended.error));
        return Failure(appended.error), sent;
      }
      ghost var uploaded := sent;
      assert Uploaded(uploaded, x0, appends, appendPlan);

      var finalized, x2 := MediaFinalize(init.value);
      assert old(httpClient.log) + uploaded + [x2] == old(httpClient.log) + (uploaded + [x2]);
      sent := uploaded + [x2];
      if finalized.Fail? {
        FinalizeRejected(uploaded, x0, appends, x2, appendPlan, StatusUpdate(text, mediaId), plan,
          Failure(finalized.error));
        return Failure(finalized.error), sent;
      }

      var url, x3 := UpdateStatusWithMedia(text, init.value);
      assert old(httpClient.log) + sent + [x3] == old(httpClient.log) + (sent + [x3]);
      UpdateAnswered(uploaded, x0, appends, x2, x3, appendPlan, plan, url);
      sent := sent + [x3];
      if url.Failure? {
        return Failure(url.error), sent;
      }
      return Success(url.value), sent;
    }
  }
}
