/**
 The two upload handlers of the server as total functions from what they
 observe to what they do: the reply they send and the file write they start,
 if any. The fetch, the clock, the base64 decoder and the outcome of the disk
 write are inputs.
 */
module Handlers {
  import opened JsText
  import DataUri
  import opened Naming

  newtype byte = x: int | 0 <= x < 256

  type Bytes = seq<byte>

  /** The error replies of the two handlers. */
  datatype ErrorKind = FetchFailed | NotAnImage | InvalidImageData | SaveFailed | ServerError

  function HttpStatus(e: ErrorKind): nat
  {
    match e
    case FetchFailed => 400
    case NotAnImage => 400
    case InvalidImageData => 400
    case SaveFailed => 500
    case ServerError => 500
  }

  /** The `error` field of the JSON body sent with an error reply. */
  function Message(e: ErrorKind): string
  {
    match e
    case FetchFailed => "Failed to fetch image."
    case NotAnImage => "URL does not point to a valid image."
    case InvalidImageData => "Invalid image data."
    case SaveFailed => "Failed to save image."
    case ServerError => "Server error."
  }

  /** The JSON body of a 200 reply: `{filename}` from the URL upload,
      `{imageUrl}` from the blurred upload. */
  datatype Success = FilenameBody(filename: string) | ImageUrlBody(imageUrl: string)

  datatype Reply = Ok(body: Success) | Err(kind: ErrorKind)

  /** The two storage directories. */
  datatype Dir = OriginalDir | BlurredDir

  /** A file the handler opened for writing, with the bytes it directs there.
      Whether they all arrived is what the save input says. */
  datatype FileWrite = FileWrite(dir: Dir, filename: string, content: Bytes)

  /** Everything a handler does for one request. */
  datatype Outcome = Outcome(reply: Reply, write: Option<FileWrite>)

  /** What `await fetch(imageUrl)` gave: an exception (network failure,
      malformed or missing URL), or a response with its status, its
      `content-type` header and its body (None for a null body). */
  datatype Fetched =
    | Threw
    | Responded(status: int, contentType: Option<string>, body: Option<Bytes>)

  /** How the disk write ended: the write stream's `finish` or `error` event,
      or the settling of `fs.promises.writeFile`. */
  datatype Saved = Completed | Failed

  /** `response.ok` of the Fetch standard: a status in the range 200 to 299. */
  predicate IsOkStatus(status: int)
  {
    200 <= status <= 299
  }

  /** The content-type test: present, non-empty and starting with `image/`. */
  predicate IsImageType(contentType: Option<string>)
  {
    contentType.Some? && StartsWith(contentType.value, "image/")
  }

  /** POST /api/upload-url. */
  function UploadUrl(fetched: Fetched, now: nat, saved: Saved): (o: Outcome)
    ensures fetched.Threw? ==> o == Outcome(Err(ServerError), None)
    ensures fetched.Responded? && !IsOkStatus(fetched.status) ==> o == Outcome(Err(FetchFailed), None)
    ensures fetched.Responded? && IsOkStatus(fetched.status) && !IsImageType(fetched.contentType) ==>
      o == Outcome(Err(NotAnImage), None)
    ensures o.reply.Ok? <==>
      && fetched.Responded?
      && IsOkStatus(fetched.status)
      && IsImageType(fetched.contentType)
      && fetched.body.Some?
      && saved == Completed
    ensures fetched.Responded? && IsOkStatus(fetched.status) && IsImageType(fetched.contentType) ==>
      var name := Filename(Original, now, SecondSegment(fetched.contentType.value));
      && (fetched.body.None? ==> o == Outcome(Err(ServerError), Some(FileWrite(OriginalDir, name, []))))
      && (fetched.body.Some? && saved == Failed ==>
            o == Outcome(Err(SaveFailed), Some(FileWrite(OriginalDir, name, fetched.body.value))))
  {
    match fetched
    case Threw => Outcome(Err(ServerError), None)
    case Responded(status, contentType, body) =>
      if !IsOkStatus(status) then Outcome(Err(FetchFailed), None)
      else if !IsImageType(contentType) then Outcome(Err(NotAnImage), None)
      else
        var filename := Filename(Original, now, SecondSegment(contentType.value));
        match body
        // Readable.fromWeb(null) throws once the write stream has started
        // opening the file, which is created (empty) if the open succeeds.
        case None => Outcome(Err(ServerError), Some(FileWrite(OriginalDir, filename, [])))
        case Some(bytes) =>
          var w := Some(FileWrite(OriginalDir, filename, bytes));
          if saved == Completed then Outcome(Ok(FilenameBody(filename)), w)
          else Outcome(Err(SaveFailed), w)
  }

  /** POST /api/upload-blurred. `decode` stands for `Buffer.from(_, 'base64')`. */
  function UploadBlurred(blurredImage: string, now: nat, decode: string -> Bytes, saved: Saved): (o: Outcome)
    ensures DataUri.Match(blurredImage).None? ==> o == Outcome(Err(InvalidImageData), None)
    ensures o.reply.Ok? <==> DataUri.Match(blurredImage).Some? && saved == Completed
    ensures o.reply.Err? && o.reply.kind != InvalidImageData ==> o.reply.kind == SaveFailed
    ensures DataUri.Match(blurredImage).Some? ==>
      var c := DataUri.Match(blurredImage).value;
      o.write == Some(FileWrite(BlurredDir, Filename(Blurred, now, SecondSegment(c.mime)), decode(c.payload)))
  {
    match DataUri.Match(blurredImage)
    case None => Outcome(Err(InvalidImageData), None)
    case Some(captures) =>
      var filename := Filename(Blurred, now, SecondSegment(captures.mime));
      var w := Some(FileWrite(BlurredDir, filename, decode(captures.payload)));
      if saved == Completed then Outcome(Ok(ImageUrlBody(ImageUrl(filename))), w)
      else Outcome(Err(SaveFailed), w)
  }

  /** A non-ok status is answered without looking at the content type, the
      body, the clock or the disk. */
  lemma FetchFailedFirst(status: int, ct1: Option<string>, ct2: Option<string>,
                         b1: Option<Bytes>, b2: Option<Bytes>,
                         n1: nat, n2: nat, s1: Saved, s2: Saved)
    requires !IsOkStatus(status)
    ensures UploadUrl(Responded(status, ct1, b1), n1, s1) == UploadUrl(Responded(status, ct2, b2), n2, s2)
    ensures UploadUrl(Responded(status, ct1, b1), n1, s1).reply == Err(FetchFailed)
  {
  }

  /** No write on validation failure, for the URL upload: the 400 replies
      come with no file, and the only other way to write nothing is a fetch
      that threw. */
  lemma UrlValidationWritesNothing(fetched: Fetched, now: nat, saved: Saved)
    ensures var o := UploadUrl(fetched, now, saved);
      && (o.reply.Err? && HttpStatus(o.reply.kind) == 400 ==> o.write.None?)
      && (o.write.None? <==> fetched.Threw? || (o.reply.Err? && HttpStatus(o.reply.kind) == 400))
  {
  }

  /** No write on validation failure, for the blurred upload: no file is
      written exactly when the reply is 400 "Invalid image data.". */
  lemma BlurredValidationWritesNothing(blurredImage: string, now: nat, decode: string -> Bytes, saved: Saved)
    ensures var o := UploadBlurred(blurredImage, now, decode, saved);
      o.write.None? <==> o.reply == Err(InvalidImageData)
  {
  }

  /** The blurred upload gets past validation exactly for the strings
      `"data:" + M + ";base64," + D` with M a non-empty run of letters, `-`,
      `+` and `/`, and D non-empty without line terminators. */
  lemma BlurredAcceptance(blurredImage: string, now: nat, decode: string -> Bytes, saved: Saved)
    ensures UploadBlurred(blurredImage, now, decode, saved).reply != Err(InvalidImageData) <==>
      exists c: DataUri.Captures :: c.Valid() && c.Render() == blurredImage
  {
    DataUri.MatchAccepts(blurredImage);
  }

  /** What a URL upload that succeeds (see UploadUrl) writes and returns:
      the fetched bytes, directly inside the original directory (joined as
      `dir`), under `original_<now>.<ext>` where ext is the content type's
      text after `image/` up to the next `/`; the filename reads back as now
      and ext. */
  lemma UrlSuccess(dir: seq<string>, fetched: Fetched, now: nat, saved: Saved)
    requires fetched.Responded? && IsOkStatus(fetched.status) && IsImageType(fetched.contentType)
    requires fetched.body.Some? && saved == Completed
    ensures var o := UploadUrl(fetched, now, saved);
      var ct := fetched.contentType.value;
      var ext := SecondSegment(ct);
      && o.reply == Ok(FilenameBody(Filename(Original, now, ext)))
      && o.write == Some(FileWrite(OriginalDir, Filename(Original, now, ext), fetched.body.value))
      && 6 + |ext| <= |ct|
      && ct[..6 + |ext|] == "image/" + ext
      && (6 + |ext| == |ct| || ct[6 + |ext|] == '/')
      && PathJoin(dir, o.reply.body.filename) == dir + [o.reply.body.filename]
      && ParseFilename(Original, o.reply.body.filename) == Some(Stamp(now, ext))
  {
    var ct := fetched.contentType.value;
    UrlExtension(ct);
    FilenameStaysInDir(dir, Original, now, SecondSegment(ct));
    FilenameParses(Original, now, SecondSegment(ct));
  }

  /** What a blurred upload that succeeds (see UploadBlurred) writes and
      returns: the decoded payload, directly inside the blurred directory
      (joined as `root`), under `blurred_<now>.<ext>` with ext the mime's
      segment after its first `/`; the returned imageUrl needs no escaping
      and is served by the static route from exactly that file; the filename
      reads back as now and ext. */
  lemma BlurredSuccess(root: seq<string>, blurredImage: string, now: nat, decode: string -> Bytes, saved: Saved)
    requires DataUri.Match(blurredImage).Some? && saved == Completed
    ensures var o := UploadBlurred(blurredImage, now, decode, saved);
      var c := DataUri.Match(blurredImage).value;
      var name := Filename(Blurred, now, SecondSegment(c.mime));
      && blurredImage == c.Render()
      && o.write == Some(FileWrite(BlurredDir, name, decode(c.payload)))
      && o.reply == Ok(ImageUrlBody(ImageUrl(name)))
      && IsUrlSafeText(name)
      && ServedFile(root, o.reply.body.imageUrl) == Some(root + [name])
      && ParseFilename(Blurred, name) == Some(Stamp(now, SecondSegment(c.mime)))
  {
    var c := DataUri.Match(blurredImage).value;
    var ext := SecondSegment(c.mime);
    MimeExtension(c.mime);
    BlurredFilenameUrlSafe(now, c.mime);
    FilenameStaysInDir(root, Blurred, now, ext);
    ImageUrlServesFile(root, Filename(Blurred, now, ext));
    FilenameParses(Blurred, now, ext);
  }
}
