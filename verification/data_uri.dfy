/**
 The data-URI recogniser of the blurred-image upload: the JavaScript regular
 expression `^data:([A-Za-z-+/]+);base64,(.+)$` (no flags), written out as a
 scan. The character class is the ASCII letters plus `-`, `+` and `/`; `.`
 is any character but a line terminator; `$` is the end of the input. This
 is narrower than the data URL grammar of section 3 of RFC 2397: there are no
 parameters and no charset.
 */
module DataUri {
  import opened JsText

  /** A member of the class `[A-Za-z-+/]`. */
  predicate IsMimeChar(c: char)
  {
    ('A' <= c <= 'Z') || ('a' <= c <= 'z') || c == '-' || c == '+' || c == '/'
  }

  /** The characters `.` refuses to match in a regular expression without the
      `s` flag. */
  predicate IsLineTerminator(c: char)
  {
    c == '\n' || c == '\r' || c == '\U{2028}' || c == '\U{2029}'
  }

  /** Text that `[A-Za-z-+/]+` matches in full. */
  predicate IsMime(m: string)
  {
    |m| >= 1 && forall i :: 0 <= i < |m| ==> IsMimeChar(m[i])
  }

  /** Text that `.+` matches in full. */
  predicate IsPayload(d: string)
  {
    |d| >= 1 && forall i :: 0 <= i < |d| ==> !IsLineTerminator(d[i])
  }

  /** The two capture groups of a successful match (`matches[1]` and
      `matches[2]`). */
  datatype Captures = Captures(mime: string, payload: string)
  {
    predicate Valid()
    {
      IsMime(mime) && IsPayload(payload)
    }

    /** The whole string a match with these captures spans. */
    function Render(): string
    {
      "data:" + mime + ";base64," + payload
    }
  }

  /** Length of the longest prefix of `s` inside the class `[A-Za-z-+/]`:
      the only place the greedy `+` can stop, since `;` is outside the class. */
  function MimeRun(s: string): (n: nat)
    ensures n <= |s|
    ensures forall i :: 0 <= i < n ==> IsMimeChar(s[i])
    ensures n < |s| ==> !IsMimeChar(s[n])
  {
    if |s| == 0 || !IsMimeChar(s[0]) then 0 else 1 + MimeRun(s[1..])
  }

  /** `s.match(/^data:([A-Za-z-+/]+);base64,(.+)$/)`: the captures, or None
      where JavaScript returns null. */
  function Match(s: string): (r: Option<Captures>)
    ensures r.Some? ==> r.value.Valid() && r.value.Render() == s
  {
    if !StartsWith(s, "data:") then None
    else
      var rest := s[5..];
      var n := MimeRun(rest);
      var tail := rest[n..];
      if n == 0 || !StartsWith(tail, ";base64,") then None
      else
        var payload := tail[8..];
        if !IsPayload(payload) then None
        else
          assert s == "data:" + rest[..n] + tail[..8] + payload;
          Some(Captures(rest[..n], payload))
  }

  /** Every well-formed data URI is accepted, with exactly the captures it
      was built from. */
  lemma MatchRender(c: Captures)
    requires c.Valid()
    ensures Match(c.Render()) == Some(c)
  {
    var s := c.Render();
    var rest := s[5..];
    assert rest == c.mime + ";base64," + c.payload;
    assert rest[|c.mime|] == ';';
    assert MimeRun(rest) == |c.mime|;
    assert s[..5] == "data:";
    assert rest[..|c.mime|] == c.mime;
    var tail := rest[|c.mime|..];
    assert tail == ";base64," + c.payload;
    assert tail[..8] == ";base64,";
    assert tail[8..] == c.payload;
  }

  /** The recogniser accepts a string exactly when it is
      `"data:" + M + ";base64," + D` for a non-empty M over the class and a
      non-empty D free of line terminators. */
  lemma MatchAccepts(s: string)
    ensures Match(s).Some? <==> exists c: Captures :: c.Valid() && c.Render() == s
  {
    if c: Captures :| c.Valid() && c.Render() == s {
      MatchRender(c);
    }
  }

  /** Since M cannot contain `;`, a data URI splits into M and D in one way only. */
  lemma CapturesUnique(c: Captures, d: Captures)
    requires c.Valid() && d.Valid()
    requires c.Render() == d.Render()
    ensures c == d
  {
    MatchRender(c);
    MatchRender(d);
  }
}
