/**
 Instances of the handler model: a PNG fetched from a URL, a 404, an HTML
 page, a JPEG data URI, text that is no data URI, and a data URI whose mime
 has no `/`.
 */
module Scenarios {
  import opened JsText
  import DataUri
  import opened Naming
  import opened Handlers

  /** `image/<ext>` passes the content-type test and yields `ext`. */
  lemma ImageType(ct: string, ext: string)
    requires '/' !in ext && ct == "image/" + ext
    ensures IsImageType(Some(ct)) && SecondSegment(ct) == ext
  {
    assert ct[..6] == "image/";
    assert ct == "image" + ['/'] + ext;
    SecondSegmentOf("image", ext);
  }

  /** A reachable URL answering with `content-type: image/png` is stored as
      `original_<now>.png`. */
  lemma PngFromUrl(bytes: Bytes, now: nat)
    ensures var name := Filename(Original, now, "png");
      UploadUrl(Responded(200, Some("image/png"), Some(bytes)), now, Completed)
      == Outcome(Ok(FilenameBody(name)), Some(FileWrite(OriginalDir, name, bytes)))
  {
    ImageType("image/png", "png");
  }

  /** A 404 is a failed fetch, whatever it claims to carry. */
  lemma NotFoundUrl(bytes: Bytes, now: nat)
    ensures UploadUrl(Responded(404, Some("image/png"), Some(bytes)), now, Completed)
      == Outcome(Err(FetchFailed), None)
  {
  }

  /** An HTML page is not an image. */
  lemma HtmlUrl(bytes: Bytes, now: nat)
    ensures UploadUrl(Responded(200, Some("text/html"), Some(bytes)), now, Completed)
      == Outcome(Err(NotAnImage), None)
  {
    assert !IsImageType(Some("text/html")) by {
      assert "text/html"[0] != "image/"[0];
    }
  }

  /** Text that is no data URI is refused and nothing is written. */
  lemma NotADataUri(now: nat, decode: string -> Bytes)
    ensures UploadBlurred("not-a-data-uri", now, decode, Completed) == Outcome(Err(InvalidImageData), None)
  {
    assert DataUri.Match("not-a-data-uri") == None by {
      assert "not-a-data-uri"[0] != "data:"[0];
    }
  }

  /** A JPEG data URI is stored as `blurred_<now>.jpeg`, holding the decoded
      payload, and answered with that file's URL. */
  lemma JpegDataUri(payload: string, now: nat, decode: string -> Bytes)
    requires DataUri.IsPayload(payload)
    ensures var name := Filename(Blurred, now, "jpeg");
      UploadBlurred("data:image/jpeg;base64," + payload, now, decode, Completed)
      == Outcome(Ok(ImageUrlBody(ImageUrl(name))), Some(FileWrite(BlurredDir, name, decode(payload))))
  {
    var c := DataUri.Captures("image/jpeg", payload);
    assert DataUri.IsMime("image/jpeg");
    assert c.Render() == "data:image/jpeg;base64," + payload;
    DataUri.MatchRender(c);
    assert "image/jpeg" == "image" + ['/'] + "jpeg";
    SecondSegmentOf("image", "jpeg");
  }

  /** A mime without `/` names the file `.undefined`: the pattern lets it
      through, and the missing second piece of the split is interpolated as
      the text "undefined". */
  lemma MimeWithoutSlash(mime: string, payload: string, now: nat, decode: string -> Bytes)
    requires DataUri.IsMime(mime) && '/' !in mime && DataUri.IsPayload(payload)
    ensures var name := Filename(Blurred, now, "undefined");
      UploadBlurred("data:" + mime + ";base64," + payload, now, decode, Completed)
      == Outcome(Ok(ImageUrlBody(ImageUrl(name))), Some(FileWrite(BlurredDir, name, decode(payload))))
  {
    var c := DataUri.Captures(mime, payload);
    DataUri.MatchRender(c);
  }
}
