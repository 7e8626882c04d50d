/**
 How the upload handlers name what they store: the extension taken from a
 content type or data-URI mime, the `<prefix>_<now>.<ext>` filename, the
 place `path.join` puts that file, and the public URL the static route of
 the blurred directory answers for it.
 */
module Naming {
  import opened JsText
  import DataUri

  /** Which handler produced a file, and so which filename prefix it carries. */
  datatype Category = Original | Blurred

  function Prefix(c: Category): string
  {
    match c
    case Original => "original_"
    case Blurred => "blurred_"
  }

  /** `${prefix}${now}.${ext}` as the handlers build it. */
  function Filename(c: Category, now: nat, ext: string): string
  {
    Prefix(c) + StampText(now, ext)
  }

  /** The part of a filename after its prefix: `${now}.${ext}`. */
  function StampText(now: nat, ext: string): string
  {
    Decimal(now) + "." + ext
  }

  /** The extension of the URL upload, `contentType.split('/')[1]` once the
      content type is known to start with `image/`: the text right after
      `image/`, verbatim (parameters such as `; charset=...` included), up
      to the next `/` or the end. It may be empty; it never holds `/`. */
  lemma UrlExtension(contentType: string)
    requires StartsWith(contentType, "image/")
    ensures var ext := SecondSegment(contentType);
      && '/' !in ext
      && 6 + |ext| <= |contentType|
      && contentType[..6 + |ext|] == "image/" + ext
      && (6 + |ext| == |contentType| || contentType[6 + |ext|] == '/')
  {
    assert contentType[..6] == "image/";
    assert contentType[5] == '/';
    assert forall k :: 0 <= k < 5 ==> contentType[k] != '/';
    assert IndexOf(contentType, '/') == 5;
    var t := contentType[6..];
    var ext := t[..IndexOf(t, '/')];
    assert contentType[..6 + |ext|] == contentType[..6] + ext;
  }

  /** The extension of the blurred upload, `matches[1].split('/')[1]`: for a
      mime the data-URI pattern accepted it holds only letters, `-` and `+`
      (never `/` nor `.`), and it is the literal "undefined" when the mime
      has no `/`. */
  lemma MimeExtension(mime: string)
    requires DataUri.IsMime(mime)
    ensures var ext := SecondSegment(mime);
      && (forall i :: 0 <= i < |ext| ==> DataUri.IsMimeChar(ext[i]) && ext[i] != '/' && ext[i] != '.')
      && ('/' !in mime ==> ext == "undefined")
  {
  }

  /** What a filename tells back: the timestamp and the extension. */
  datatype Stamp = Stamp(now: nat, ext: string)

  /** Reads the part of a filename after its prefix back: the canonical
      decimal digits up to the first `.`, then the extension. */
  function ParseStamp(text: string): Option<Stamp>
  {
    var i := IndexOf(text, '.');
    if i == |text| || !IsCanonicalDecimal(text[..i]) then None
    else Some(Stamp(ParseDigits(text[..i]), text[i + 1..]))
  }

  /** Reads a filename of category `c` back: strip the prefix, then read
      the stamp. */
  function ParseFilename(c: Category, name: string): Option<Stamp>
  {
    if !StartsWith(name, Prefix(c)) then None else ParseStamp(name[|Prefix(c)|..])
  }

  /** The timestamp digits end at the first `.`, so `${now}.${ext}` gives
      back exactly the `now` and extension it was made from. */
  lemma StampParses(now: nat, ext: string)
    ensures ParseStamp(StampText(now, ext)) == Some(Stamp(now, ext))
  {
    var digits := Decimal(now);
    var text := StampText(now, ext);
    assert '.' !in digits by {
      assert forall k :: 0 <= k < |digits| ==> IsDigit(digits[k]);
    }
    IndexOfAfter(digits, '.', ext);
    ParseDecimal(now);
    assert text[..|digits|] == digits;
    assert text[|digits| + 1..] == ext;
  }

  /** Whatever ParseStamp reads back rebuilds the very text it was given. */
  lemma ParsedIsStamp(text: string)
    requires ParseStamp(text).Some?
    ensures text == StampText(ParseStamp(text).value.now, ParseStamp(text).value.ext)
  {
    var i := IndexOf(text, '.');
    var digits := text[..i];
    assert text == digits + "." + text[i + 1..] by {
      assert text[i] == '.';
    }
    DecimalOfParse(digits);
  }

  /** A generated filename reads back as the `now` and extension it was
      made from. */
  lemma FilenameParses(c: Category, now: nat, ext: string)
    ensures ParseFilename(c, Filename(c, now, ext)) == Some(Stamp(now, ext))
  {
    var name := Filename(c, now, ext);
    assert name[..|Prefix(c)|] == Prefix(c);
    assert name[|Prefix(c)|..] == StampText(now, ext);
    StampParses(now, ext);
  }

  /** Nothing but a generated filename parses: whatever ParseFilename reads
      back rebuilds the very name it was given. */
  lemma ParsedIsFilename(c: Category, name: string)
    requires ParseFilename(c, name).Some?
    ensures var st := ParseFilename(c, name).value;
      name == Filename(c, st.now, st.ext)
  {
    ParsedIsStamp(name[|Prefix(c)|..]);
    assert name == Prefix(c) + name[|Prefix(c)|..];
  }

  /** Filenames and their readings are in one-to-one correspondence. */
  lemma FilenameRoundTrip(c: Category, name: string, now: nat, ext: string)
    ensures ParseFilename(c, name) == Some(Stamp(now, ext)) <==> name == Filename(c, now, ext)
  {
    if name == Filename(c, now, ext) {
      FilenameParses(c, now, ext);
    }
    if ParseFilename(c, name) == Some(Stamp(now, ext)) {
      ParsedIsFilename(c, name);
    }
  }

  /** A name `path.join` keeps as one entry of the directory it is joined to. */
  predicate IsPathComponent(name: string)
  {
    |name| >= 1 && '/' !in name && name != "." && name != ".."
  }

  /** POSIX normalisation of `segs` appended to the absolute path `dir`:
      empty and `.` segments vanish, `..` drops the last entry (and stays at
      the root). */
  function Normalize(dir: seq<string>, segs: seq<string>): seq<string>
    decreases |segs|
  {
    if |segs| == 0 then dir
    else if segs[0] == "" || segs[0] == "." then Normalize(dir, segs[1..])
    else if segs[0] == ".." then Normalize(if |dir| == 0 then dir else dir[..|dir| - 1], segs[1..])
    else Normalize(dir + [segs[0]], segs[1..])
  }

  /** `path.join(dir, name)` on POSIX, for an absolute normalised `dir`
      given by its entries. */
  function PathJoin(dir: seq<string>, name: string): seq<string>
  {
    Normalize(dir, Split(name, '/'))
  }

  /** A single path component lands directly inside the directory. */
  lemma JoinComponent(dir: seq<string>, name: string)
    requires IsPathComponent(name)
    ensures PathJoin(dir, name) == dir + [name]
  {
    assert Split(name, '/') == [name];
    assert name != "";
    assert Normalize(dir, [name]) == Normalize(dir + [name], [name][1..]);
    assert [name][1..] == [];
  }

  /** Every generated filename is a single path component as long as its
      extension has no `/`, so the file is written directly inside the
      target directory: no extension can climb out of it. */
  lemma FilenameStaysInDir(dir: seq<string>, c: Category, now: nat, ext: string)
    requires '/' !in ext
    ensures IsPathComponent(Filename(c, now, ext))
    ensures PathJoin(dir, Filename(c, now, ext)) == dir + [Filename(c, now, ext)]
  {
    var name := Filename(c, now, ext);
    var digits := Decimal(now);
    assert forall k :: 0 <= k < |digits| ==> digits[k] != '/';
    assert '/' !in StampText(now, ext);
    assert '/' !in name;
    JoinComponent(dir, name);
  }

  /** Characters a URL path carries unchanged: no `%` to decode, no `?` or
      `#` to cut the path short. */
  predicate IsUrlSafe(ch: char)
  {
    (DataUri.IsMimeChar(ch) && ch != '/') || IsDigit(ch) || ch == '_' || ch == '.'
  }

  predicate IsUrlSafeText(s: string)
  {
    forall i :: 0 <= i < |s| ==> IsUrlSafe(s[i])
  }

  lemma UrlSafeConcat(a: string, b: string)
    requires IsUrlSafeText(a) && IsUrlSafeText(b)
    ensures IsUrlSafeText(a + b)
  {
  }

  lemma StampUrlSafe(now: nat, ext: string)
    requires IsUrlSafeText(ext)
    ensures IsUrlSafeText(StampText(now, ext))
  {
  }

  /** A blurred filename is made of letters, digits, `_`, `.`, `-` and `+`
      only, so its URL needs no escaping. */
  lemma BlurredFilenameUrlSafe(now: nat, mime: string)
    requires DataUri.IsMime(mime)
    ensures IsUrlSafeText(Filename(Blurred, now, SecondSegment(mime)))
  {
    var ext := SecondSegment(mime);
    assert IsUrlSafeText(ext) by {
      MimeExtension(mime);
    }
    StampUrlSafe(now, ext);
    assert IsUrlSafeText("blurred_");
    UrlSafeConcat("blurred_", StampText(now, ext));
  }

  /** The mount point of the static route for the blurred directory, with
      its trailing separator. */
  const BlurredRoute: string := "/uploads/blurred/"

  /** The `imageUrl` the blurred upload returns for a stored filename. */
  function ImageUrl(filename: string): string
  {
    BlurredRoute + filename
  }

  /** The file the static route of the blurred directory `root` looks up for
      a request path: the text after the mount point, joined to the root. */
  function ServedFile(root: seq<string>, url: string): Option<seq<string>>
  {
    if StartsWith(url, BlurredRoute) then Some(PathJoin(root, url[|BlurredRoute|..])) else None
  }

  /** Asking the static route for `ImageUrl(name)` reaches exactly the file
      `name` inside the blurred directory. */
  lemma ImageUrlServesFile(root: seq<string>, name: string)
    requires IsPathComponent(name)
    ensures ServedFile(root, ImageUrl(name)) == Some(root + [name])
  {
    var url := ImageUrl(name);
    assert url[..|BlurredRoute|] == BlurredRoute;
    assert url[|BlurredRoute|..] == name;
    JoinComponent(root, name);
  }
}
