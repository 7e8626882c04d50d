# Upload handlers of the image-blur backend, in Dafny

The server has two ingestion endpoints:

- `POST /api/upload-url` fetches an image from a URL and stores it as `uploads/original/original_<now>.<ext>`.
- `POST /api/upload-blurred` takes a base64 data URI and stores the decoded bytes as `uploads/blurred/blurred_<now>.<ext>`. It returns `/uploads/blurred/<filename>`, which the static route serves.

Almost all of `server.js` is I/O. This project models the logic between the I/O calls:

- which requests are accepted or rejected, with which reply;
- how the extension and filename are derived;
- where `path.join` puts the file;
- which URL the blurred upload hands back.

Each handler is a total function from what it observes to an `Outcome`. An `Outcome` holds the reply (`Ok` with the JSON body, or `Err` with one of five error kinds) and the file write it starts, if any. The inputs are:

- the fetch result (threw, or status, content type and body);
- the clock reading `now`;
- the base64 decoder, as a function parameter;
- whether the disk write completed.

Modules, one per concept:

- `JsText` (`js_text.dfy`): the JavaScript string operations the handlers rely on. These are `startsWith`, `split` with a one-character separator, array indexing that may give `undefined`, template interpolation (where `undefined` becomes the text `"undefined"`), and the decimal rendering of `Date.now()`. `JsText.IndexOf` is a helper used to specify `split`; the handlers do not call `indexOf`.
- `DataUri` (`data_uri.dfy`): the regular expression `^data:([A-Za-z-+/]+);base64,(.+)$`, written out as a scan. It is the regex that is modelled, not the data URL grammar of RFC 2397, which allows parameters.
- `Naming` (`naming.dfy`): the extension taken from a content type or mime, the filename and its parser, POSIX `path.join`, and the static route of the blurred directory.
- `Handlers` (`handlers.dfy`): the two endpoints.
- `Scenarios` (`scenarios.dfy`): instances of the handlers: a PNG fetched from a URL, a 404, an HTML page, a JPEG data URI, text that is no data URI, and a data URI whose mime has no `/`.

Two details of the code are easy to misread:

- The URL upload's extension is `contentType.split('/')[1]`, so it is not the whole text after `image/`: it stops at the next `/`, and `image/a/b` gives `a`. `Naming.UrlExtension` states this.
- A null response body makes `Readable.fromWeb` throw, and the reply is 500 "Server error.". By then `fs.createWriteStream` has started opening the target file, which is created (empty) if the open succeeds. So this 500 reply comes with a write attempt, and `Handlers.UploadUrl` states it that way. A write stream `error` instead gives 500 "Failed to save image.".

An unchecked extension could be suspected of allowing path traversal. For the name itself, `Naming.FilenameStaysInDir` rules this out. An extension produced by `split('/')` never contains `/`. Every filename starts with `original_` or `blurred_`, so it is neither `.` nor `..`. So POSIX `path.join` puts every stored file directly inside its directory.

## Model

| member | source | states |
|---|---|---|
| JsText.Split | server.js:38 | `split('/')` gives at least one piece, no piece contains the separator, and joining the pieces with it gives back the input |
| JsText.SplitJoin | server.js:75 | split undoes join: the separator-free pieces are recovered exactly, so the split is the only decomposition |
| JsText.SecondSegment | server.js:75 | `${s.split('/')[1]}` is the text after the first `/` up to the next `/` or the end, or the literal "undefined" when there is no `/`; it never contains `/` |
| JsText.Decimal | server.js:39 | `${Date.now()}` is a non-empty digit string without a leading zero |
| JsText.ParseDecimal | server.js:77 | reading the decimal rendering back gives the timestamp |
| JsText.DecimalOfParse | server.js:77 | every canonical digit string is the rendering of the number it denotes |
| JsText.DecimalInjective | server.js:39 | distinct timestamps give distinct digit strings |
| DataUri.MimeRun | server.js:70 | the greedy `[A-Za-z-+/]+` stops exactly where the first character outside the class stands |
| DataUri.Match | server.js:70-73 | a successful match gives a mime of class characters, a payload without line terminators, and the two rebuild the input |
| DataUri.MatchRender | server.js:70 | every `data:<M>;base64,<D>` with M over the class and D free of line terminators is accepted with exactly M and D as captures |
| DataUri.MatchAccepts | server.js:70-73 | the pattern accepts a string if and only if it is such a data URI |
| DataUri.CapturesUnique | server.js:70 | since M cannot contain `;`, the split into M and D is unique |
| Naming.UrlExtension | server.js:34-38 | after the `image/` check, the extension is the verbatim text after `image/` up to the next `/` or the end; parameters are kept, it may be empty, it has no `/` |
| Naming.MimeExtension | server.js:75 | the blurred extension contains only letters, `-` and `+` (never `/` or `.`), and is "undefined" when the mime has no `/` |
| Naming.StampParses | server.js:39 | the digits of `${now}.${ext}` end at the first `.`, so now and ext are read back exactly |
| Naming.FilenameParses | server.js:39 | stripping the prefix and splitting at the first `.` recovers now and ext from `original_<now>.<ext>` and `blurred_<now>.<ext>` |
| Naming.ParsedIsFilename | server.js:77 | anything the filename reader accepts is a generated filename |
| Naming.FilenameRoundTrip | server.js:39 | a filename reads back as (now, ext) if and only if it is the filename built from them |
| Naming.JoinComponent | server.js:40 | `path.join(dir, name)` for a single path component is the directory plus that one entry |
| Naming.FilenameStaysInDir | server.js:38-40 | when the extension has no `/`, the filename is a single path component and `path.join` puts the file directly inside the target directory |
| Naming.BlurredFilenameUrlSafe | server.js:75-83 | a blurred filename consists of letters, digits, `_`, `.`, `-` and `+` only, so its URL needs no escaping |
| Naming.ImageUrlServesFile | server.js:83-92 | the static route of the blurred directory answers `/uploads/blurred/<name>` with the file `<name>` inside that directory |
| Handlers.UploadUrl | server.js:24-63 | a fetch that throws gives 500 "Server error." with no write; a non-ok status gives 400 "Failed to fetch image." with no write, whatever the content type; otherwise a missing or non-`image/` type gives 400 "URL does not point to a valid image." with no write; past validation, a null body gives 500 "Server error." with an empty write to `original_<now>.<ext>`, and a failed write gives 500 "Failed to save image." with the fetched bytes sent there; success happens exactly when status is ok, type is an image, a body exists and the save completes |
| Handlers.UploadBlurred | server.js:66-89 | input the pattern rejects gives 400 "Invalid image data." with no write; input it accepts is always written, decoded, to `blurred_<now>.<ext>` in the blurred directory, whether the save then completes or fails; success happens exactly when the pattern matches and the write completes; the only other reply is 500 "Failed to save image." |
| Handlers.FetchFailedFirst | server.js:29-31 | a non-ok status is answered the same way regardless of content type, body, clock or disk |
| Handlers.UrlValidationWritesNothing | server.js:29-41 | the 400 replies of the URL upload come with no write; the only other way to write nothing is a fetch that threw |
| Handlers.BlurredValidationWritesNothing | server.js:70-81 | the blurred upload writes nothing exactly when it answers 400 "Invalid image data." |
| Handlers.BlurredAcceptance | server.js:70-73 | the blurred upload passes validation if and only if its input is `data:<M>;base64,<D>` with M over the class and D non-empty without line terminators |
| Handlers.UrlSuccess | server.js:38-52 | a successful URL upload writes the fetched bytes as `original_<now>.<ext>` directly inside the original directory and replies with that filename; ext is the content type's text after `image/` up to the next `/` or the end, and the filename reads back as (now, ext) |
| Handlers.BlurredSuccess | server.js:75-84 | a successful blurred upload writes the decoded payload as `blurred_<now>.<ext>` directly inside the blurred directory; the returned imageUrl needs no escaping, the static route serves exactly that file, and the filename reads back as (now, ext) |
| Scenarios.PngFromUrl | server.js:33-52 | an `image/png` response is stored and answered as `original_<now>.png` |
| Scenarios.NotFoundUrl | server.js:29-31 | a 404 gives 400 "Failed to fetch image." and no file |
| Scenarios.HtmlUrl | server.js:33-36 | a `text/html` response gives 400 "URL does not point to a valid image." and no file |
| Scenarios.JpegDataUri | server.js:70-84 | `data:image/jpeg;base64,<D>` is stored as `blurred_<now>.jpeg` with the decoded payload and answered with `/uploads/blurred/blurred_<now>.jpeg` |
| Scenarios.NotADataUri | server.js:70-73 | `not-a-data-uri` gives 400 "Invalid image data." and no file |
| Scenarios.MimeWithoutSlash | server.js:75-77 | a data URI whose mime has no `/` is stored as `blurred_<now>.undefined`, holding the decoded payload, and answered with that file's URL |

## Left out

- The network fetch is an input, `Handlers.Fetched`. So are `Readable.fromWeb`, the stream pipe, and the write stream's `finish`/`error` events. How much of a failed stream reached the disk is not modelled. A `FileWrite` records the target and the bytes sent to it, and the `Saved` input says whether the write completed.
- An `error` event on the source stream during piping is not modelled. Nothing in the handler listens for it, and `pipe` does not pass it on to the file stream, so neither `finish` nor `error` fires there: the request gets no reply, and Node raises the unhandled stream error. `Handlers.UploadUrl` always replies, so this path lies outside the model.
- `fs.promises.writeFile` is I/O. Its success or failure is the `Saved` input.
- `Buffer.from(data, 'base64')` is a lenient library decoder. It is the `decode` parameter and the decoded bytes are opaque.
- `Date.now()` is the `now` parameter. Two requests in the same millisecond produce the same filename, and the second overwrites the first. That collision is a matter of concurrency and the filesystem, not modelled.
- `Number` rendering in exponent form for values of 10^21 and above is not modelled. Clock readings stay far below that.
- Express plumbing is not modelled:
  - routing;
  - `express.json` with its 10 MB limit;
  - the default error handler;
  - `fs.mkdirSync` at startup;
  - `console.error`;
  - the `PORT` setting.
- `express.static` is modelled only as mapping a path under `/uploads/blurred/` to `PathJoin(root, rest)`. Not modelled:
  - percent-decoding;
  - dotfile refusal;
  - query strings;
  - 404 for missing files.
  
  Blurred filenames contain none of `%`, `?` or `#` (`Naming.BlurredFilenameUrlSafe`), so percent-decoding cannot change them.
- A `blurredImage` that is not a string makes `.match` throw outside the `try`. This is left to the framework and not modelled: the input is a string.
- The check `matches.length !== 3` is not modelled separately. A successful non-global match always has three entries, so the check is always false.
- `content-type` arrives as the string `Headers.get` returns, including its joining of repeated headers. It is an input.
- Strings are sequences of Unicode scalar values. JavaScript strings are UTF-16 code units, so lone surrogates cannot be represented. `.` in the pattern matches them, as it does any other non-terminator.
- `path.join` is modelled for POSIX separators only. Windows also splits on `\`.
- `Handlers.UploadUrl`: on the null-body branch (reachable with an ok status, e.g. 204 or 205), the throw comes before the `finish` and `error` listeners are attached. If the open of the target file then fails (for instance ENAMETOOLONG for a content type `image/` followed by more than about 230 characters), the unheard `error` event is thrown and ends the process just after the 500 "Server error." reply. If the open succeeds, the stream is never ended and its file descriptor stays open. The model records only the reply and the write attempt.
- `Handlers.UploadUrl` and `Handlers.UploadBlurred`: do not say which file content remains after a `ServerError` or `SaveFailed` reply. The source gives no guarantee for it either: a partial file may remain.
