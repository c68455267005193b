/**
 * Whole posts against scripted remote sides: what the contract of `Post` alone
 * says a caller gets back, and which requests went out.
 */
module Examples {
  import opened Wrappers
  import opened Text
  import opened Transport
  import opened Twitter

  /** A reply every step accepts: media id "42", tweet id 999. */
  function Ok(): Response
  {
    Response(200, Some(Body(Some("42"), Some(999))))
  }

  /** A remote side that answers every request with `Ok()`. */
  function AlwaysOk(history: seq<Exchange>, request: Request): Response
  {
    Ok()
  }

  /** A remote side that fails the second APPEND with status 500 and accepts the rest. */
  function SecondAppendFails(history: seq<Exchange>, request: Request): Response
  {
    if request.Append? && request.segmentIndex == 1 then Response(500, Some(Body(None, None))) else Ok()
  }

  /** A MIME table that knows only ".png". */
  function PngOnly(extension: string): string
  {
    if extension == ".png" then "image/png" else ""
  }

  /** Any path ending in ".png" has the PNG type, whatever comes before the dot. */
  lemma PngPath(imagePath: string)
    requires |imagePath| >= 4 && imagePath[|imagePath| - 4..] == ".png"
    ensures MediaType(imagePath, PngOnly) == Success("image/png")
  {
    assert imagePath[|imagePath| - 3..] == "png" && imagePath[|imagePath| - 4] == '.';
    MediaTypeOfExtension(imagePath, PngOnly, "png");
  }

  /**
   * A one-chunk PNG image: INIT, one APPEND with the whole image, FINALIZE and the
   * status update, in that order and all quoting media id "42"; the answer is the
   * URL of tweet 999.
   */
  method PostSmallImage(imagePath: string, image: seq<byte>) returns (r: Result<string, Error>, ghost sent: seq<Exchange>)
    requires |imagePath| >= 4 && imagePath[|imagePath| - 4..] == ".png"
    requires 0 < |image| <= StepSize
    ensures r == Success(StatusUrl(999))
    ensures |sent| == 4
    ensures sent[0].request == Init("image/png", |image|)
    ensures sent[1].request == Append("42", 0, "photo.png", image)
    ensures sent[2].request == Finalize("42") && sent[3].request == StatusUpdate("hello", "42")
  {
    var host := Host(path => Some(image), PngOnly, path => "photo.png");
    var client := new Client(AlwaysOk);
    var publisher := new Twitter(client);
    PngPath(imagePath);
    r, sent := publisher.Post("hello", imagePath, host);
    ghost var plan := Plan("hello", "image/png", "photo.png", image, GrantedMediaId(sent[0]));
    PlanShape("hello", "image/png", "photo.png", image, GrantedMediaId(sent[0]));
    assert ChunkCount(|image|) == 1;
    assert image[0 * StepSize .. Min(1 * StepSize, |image|)] == image;
    assert client.log == sent;
    forall i | 0 <= i < |sent|
      ensures Accepted(sent[i])
    {
      assert client.log[i].response == AlwaysOk(client.log[..i], client.log[i].request);
      assert sent[i].response == Ok();
    }
    assert sent[|sent| - 1].request == StatusUpdate("hello", GrantedMediaId(sent[0]));
    assert GrantedMediaId(sent[0]) == "42";
  }

  /**
   * An image of one byte more than a chunk takes two APPENDs; when the second is
   * answered 500 the post fails at the APPEND step after three requests, the last
   * one segment 1.
   */
  method PostWithFailingSecondAppend(imagePath: string, image: seq<byte>)
    returns (r: Result<string, Error>, ghost sent: seq<Exchange>)
    requires |imagePath| >= 4 && imagePath[|imagePath| - 4..] == ".png"
    requires |image| == StepSize + 1
    ensures r == Failure(AppendFailed)
    ensures |sent| == 3 && sent[2].request.Append? && sent[2].request.segmentIndex == 1
  {
    var host := Host(path => Some(image), PngOnly, path => "photo.png");
    var client := new Client(SecondAppendFails);
    var publisher := new Twitter(client);
    PngPath(imagePath);
    r, sent := publisher.Post("hello", imagePath, host);
    ghost var mediaId := GrantedMediaId(sent[0]);
    ghost var plan := Plan("hello", "image/png", "photo.png", image, mediaId);
    PlanShape("hello", "image/png", "photo.png", image, mediaId);
    assert ChunkCount(|image|) == 2;
    assert client.log == sent;
    forall i | 0 <= i < |sent|
      ensures Accepted(sent[i]) <==> i != 2
    {
      assert client.log[i].response == SecondAppendFails(client.log[..i], client.log[i].request);
      assert sent[i].request == plan[i];
    }
  }

  /** An image whose extension has no MIME type: nothing is sent. */
  method PostUnknownType(imagePath: string) returns (r: Result<string, Error>, ghost sent: seq<Exchange>)
    requires |imagePath| >= 4 && imagePath[|imagePath| - 4..] == ".xyz"
    ensures r == Failure(UnsupportedMediaType) && sent == []
  {
    var host := Host(path => Some([1, 2, 3]), PngOnly, path => "photo.xyz");
    var client := new Client(AlwaysOk);
    var publisher := new Twitter(client);
    assert imagePath[|imagePath| - 3..] == "xyz" && imagePath[|imagePath| - 4] == '.';
    assert ("." + "xyz")[1] != ".png"[1];
    MediaTypeOfExtension(imagePath, PngOnly, "xyz");
    assert MediaType(imagePath, PngOnly).Failure?;
    r, sent := publisher.Post("hello", imagePath, host);
  }
}
