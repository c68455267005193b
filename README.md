# scallion media publisher, in Dafny

A model of the media publisher in `pkg/twitter/twitter.go`. The publisher posts an
image with a caption as a tweet. It reads the image and resolves its MIME type from
the extension. It then uploads the image in three phases: INIT announces the type
and the byte count and gets a media id back; one APPEND per 500 × 1024-byte chunk
follows, with segment indexes 0, 1, 2, …; FINALIZE closes the upload. A status
update then quotes the media id, and the publisher answers with the public URL of
the new tweet. The first response that a step does not accept ends the whole post
with that step's error.

Modules:

- `Wrappers`: `Option`, `Result` and `Outcome`.
- `Text`: the two Go standard-library behaviours the publisher relies on. One is
  `strings.Split` with a one-character separator; `SplitLastField` proves that its
  last piece is the text after the last separator. The other is `%d` formatting of
  integers; `IntToStringRoundTrip` proves it can be read back.
- `Transport`: the signed HTTP client as a class. It holds an oracle `server`,
  which answers a request given the exchanges before it, and a `log` of every
  exchange in order. Requests are the four logical requests (INIT, APPEND,
  FINALIZE, status update). A response is a transport error, or a status code
  with a body that could or could not be read. A readable body is seen through
  the two JSON decodings the publisher applies to it.
- `Twitter`: the publisher itself.
  - `MediaType` models getMediaType.
  - `Chunks` is the chunking; `Plan` is the full request sequence of one post.
  - `Accepted` is each step's acceptance test; `StoppedAtFirstRejection` says
    how a post ends.
  - The class `Twitter` has `MediaInit`, `MediaAppend` (the chunk loop as a
    `while` loop), `MediaFinalize`, `UpdateStatusWithMedia` and `Post`. Each
    method is proved against the client's log.
- `Examples`: whole posts against scripted remote sides. The caller's conclusions
  come from `Post`'s contract alone.

The main result is `Twitter.Twitter.Post`. It covers the two local failures:
- when the image cannot be read, the post fails with `ReadFileFailed`;
- when the type is unknown, it fails with `UnsupportedMediaType`.

Either way nothing is sent. Otherwise the exchanges added to the client's log are
the first requests of `Plan`, for the media id INIT granted. Every response but
the last was accepted. The post succeeds exactly when the whole plan went
through. On success it answers `StatusUrl` of the tweet id in the last response.
On failure it returns the error of the step whose response was rejected. `PlanShape`
pins down the plan:
- one INIT with the image length;
- ceil(length / 512000) APPENDs, where APPEND `s` carries bytes
  [s·512000, min((s+1)·512000, length)) under the image's base name;
- then FINALIZE and the status update;
- every request after INIT quotes the same media id.

`ConcatChunks` proves the chunks concatenate back to the image.

Behaviour of the code worth noting:

- The step size is `500 * 1024` = 512000 bytes.
- An APPEND failure carries no segment index in the code (`response code %d`). So
  `AppendFailed` has no index; the failing segment is the last request in the
  log, as `Examples.PostWithFailingSecondAppend` shows.
- Any status below 400, including 1xx, is accepted.
- FINALIZE checks the status before it reads the body; a body it cannot read is
  still an error.
- An INIT reply that decodes but has no `media_id_string` is accepted. The empty
  media id is then sent in every later request.
- The extension is the text after the last `.` of the whole path, not of the base
  name: `a.d/photo` looks up `.d/photo`.

## Model

| member | source | states |
|---|---|---|
| Text.Split | pkg/twitter/twitter.go:57 | `strings.Split` gives at least one piece, no piece contains the separator, and there is exactly one piece iff the separator does not occur |
| Text.JoinSplit | pkg/twitter/twitter.go:57 | splitting loses nothing: joining the pieces with the separator gives the path back |
| Text.SplitLastField | pkg/twitter/twitter.go:57-58 | `comps[len(comps)-1]` is the text after the last separator (the whole text when there is none) |
| Text.NatToString | pkg/twitter/twitter.go:228 | `%d` of a non-negative number is a non-empty string of decimal digits that starts with '0' only for 0 itself |
| Text.NatToStringRoundTrip | pkg/twitter/twitter.go:228 | the decimal digits of n denote n |
| Text.IntToString | pkg/twitter/twitter.go:228 | `%d` of an integer: a minus sign for a negative one, then the digits of its magnitude; its form is stated by `IntToStringForm` and its inverse by `IntToStringRoundTrip` |
| Text.IntToStringForm | pkg/twitter/twitter.go:228 | `%d` prints digits only for a non-negative number and a minus sign then digits for a negative one, with no leading zero except in "0" |
| Text.IntToStringRoundTrip | pkg/twitter/twitter.go:228 | `%d` of any integer, negative ones with their sign, reads back to that integer |
| Transport.Client.constructor | pkg/twitter/twitter.go:50 | a fresh client has an empty log and answers with the given remote side |
| Transport.Client.Do | pkg/twitter/twitter.go:78 | the response is the remote side's answer given the log so far, and exactly that exchange is appended to the log |
| Twitter.MediaType | pkg/twitter/twitter.go:56-63 | a resolved type is never empty, and the only error is `UnsupportedMediaType` |
| Twitter.MediaTypeOfExtension | pkg/twitter/twitter.go:56-63 | the type is looked up for "." plus the text after the last '.'; it fails iff the table answers "", else the type is the table's answer |
| Twitter.ChunkCount | pkg/twitter/twitter.go:109 | the loop runs n times with (n-1)·512000 < length ≤ n·512000, and n is 0 exactly for an empty image |
| Twitter.Chunks | pkg/twitter/twitter.go:109-115 | every chunk holds between 1 and 512000 bytes, and every chunk but the last holds exactly 512000 |
| Twitter.ConcatChunks | pkg/twitter/twitter.go:109-128 | the chunks in order are exactly the image: no gap, overlap or reordering |
| Twitter.ChunksCount | pkg/twitter/twitter.go:109 | there are ceil(length / 512000) chunks |
| Twitter.ChunkRange | pkg/twitter/twitter.go:111-115 | chunk s is `media[s*stepSize : min((s+1)*stepSize, len(media))]`, and it starts inside the image |
| Twitter.AppendPlan | pkg/twitter/twitter.go:109-124 | the APPEND requests of one upload: segment s carries chunk s under the file name and media id; their count and slices are stated by `PlanShape` |
| Twitter.Plan | pkg/twitter/twitter.go:242-259 | every request of a post that meets no failure, in call order: INIT, the APPENDs, FINALIZE, the status update; its shape is stated by `PlanShape` |
| Twitter.PlanShape | pkg/twitter/twitter.go:242-259 | one INIT with the length, ceil(length/512000) APPENDs with segment s carrying chunk s under the base name, FINALIZE, the status update; every request after INIT quotes the media id |
| Twitter.Accepted | pkg/twitter/twitter.go:79-103 | whether a step goes on after its response: the transport worked, the body was read, the status is below 400, and INIT's body decodes and a status update's decodes to a non-zero id (also lines 146-158, 176-186, 204-227); each method's contract ties its outcome to it |
| Twitter.StatusUrl | pkg/twitter/twitter.go:228 | the tweet URL: the fixed status prefix followed by `%d` of the id; its inverse is stated by `StatusUrlRoundTrip` |
| Twitter.StatusUrlRoundTrip | pkg/twitter/twitter.go:228 | the URL starts with the status prefix, and the tweet id reads back from the rest, so different tweets get different URLs |
| Twitter.InitRejected | pkg/twitter/twitter.go:242-245 | a rejected INIT ends the post after one request with INIT's error |
| Twitter.AppendRejected | pkg/twitter/twitter.go:248-250 | a rejected APPEND ends the post after INIT and the APPENDs so far, with the APPEND error |
| Twitter.FinalizeRejected | pkg/twitter/twitter.go:252-254 | a rejected FINALIZE ends the post after the whole upload and FINALIZE, with the FINALIZE error |
| Twitter.UpdateAnswered | pkg/twitter/twitter.go:256-261 | after the status update the whole plan has been sent, and the post has the update's outcome |
| Twitter.Twitter.constructor | pkg/twitter/twitter.go:43-54 | the publisher talks through the given signed client |
| Twitter.Twitter.MediaInit | pkg/twitter/twitter.go:65-106 | sends exactly one INIT with the type and length; succeeds iff the transport worked, the body was read, the status is below 400 and the body decodes; then answers the `media_id_string` given; otherwise `InitFailed` |
| Twitter.Twitter.MediaAppend | pkg/twitter/twitter.go:108-162 | the APPENDs sent are the first ones of the plan, in segment order; every response but the last was accepted; it passes iff every chunk was sent and accepted, else the last was rejected and the error is `AppendFailed` |
| Twitter.Twitter.MediaFinalize | pkg/twitter/twitter.go:164-190 | sends exactly one FINALIZE for the media id; passes iff the transport worked, the status is below 400 and the body was read; otherwise `FinalizeFailed` |
| Twitter.Twitter.UpdateStatusWithMedia | pkg/twitter/twitter.go:192-229 | sends exactly one status update quoting the media id; succeeds iff the reply was read, is below 400 and decodes to a non-zero id, answering that tweet's URL; otherwise `PostFailed` |
| Twitter.Twitter.Post | pkg/twitter/twitter.go:231-262 | read and type failures send nothing; otherwise the log gains the first requests of the plan, all but the last accepted; success iff the whole plan went through, with the tweet's URL; failure names the phase of the rejected response |
| Examples.PngPath | pkg/twitter/twitter.go:56-63 | every path ending in ".png" gets the PNG type from a table that knows ".png" |
| Examples.PostSmallImage | pkg/twitter/twitter.go:231-262 | a one-chunk image against a remote side that accepts everything: four requests, the APPEND carrying the whole image, and the URL of tweet 999 |
| Examples.PostWithFailingSecondAppend | pkg/twitter/twitter.go:108-162 | a 512001-byte image whose second APPEND is answered 500: `AppendFailed` after three requests, the last being segment 1 |
| Examples.PostUnknownType | pkg/twitter/twitter.go:237-240 | an unknown extension fails with `UnsupportedMediaType` before anything is sent |

## Left out

- OAuth1 signing in `New` (twitter.go:47-54): the client is given already signed, and the four secrets are not modelled.
- Form and multipart encoding, the endpoints' URLs and the request headers: requests are logical records.
- Errors from `http.NewRequest`, `multipart.CreateFormFile`, `part.Write` and `writer.Close` are not modelled. The URL is a constant and the writers go to an in-memory buffer, so they do not fail.
- `json.Unmarshal` is abstracted: a readable body carries the results of its two decodings, as `Body`.
- `mime.TypeByExtension`, `ioutil.ReadFile` and `path.Base` are uninterpreted functions of `Host`.
- zap debug logging, and closing of response bodies, are not modelled.
- The error values record only the failing phase. The wrapped messages and the underlying Go errors are not modelled.
- Twitter.Twitter.UpdateStatusWithMedia: the tweet id is an unbounded integer, not Go's `int64`.
- Twitter.Twitter.MediaAppend: `s*stepSize` cannot overflow here, as Go's `int` could for images beyond 2^63 bytes.
- The command-line entry point and the camera (cmd/) are not part of this model.
