/**
 The few JavaScript string operations the upload handlers rely on, stated
 over Dafny strings: `startsWith`, `split` with a one-character separator,
 array indexing that may yield `undefined`, template-literal interpolation,
 and the decimal rendering of a non-negative integer. `IndexOf` is a helper
 for specifying `split`; the handlers do not call `indexOf`.
 */
module JsText {

  /** A JavaScript value that may be missing: `undefined` from an index past
      the end of an array, `null` from an absent header. */
  datatype Option<T> = None | Some(value: T)

  /** `s.startsWith(prefix)` */
  predicate StartsWith(s: string, prefix: string)
  {
    |prefix| <= |s| && s[..|prefix|] == prefix
  }

  /** Position of the first `c` in `s`, or `|s|` when `s` has none
      (`s.indexOf(c)`, with -1 replaced by the length). */
  function IndexOf(s: string, c: char): (i: nat)
    ensures i <= |s|
    ensures forall k :: 0 <= k < i ==> s[k] != c
    ensures i < |s| ==> s[i] == c
    ensures i == |s| <==> c !in s
  {
    if |s| == 0 then 0
    else if s[0] == c then 0
    else 1 + IndexOf(s[1..], c)
  }

  /** The first `c` of `a + [c] + b` is the one placed after `a` when `a`
      holds none. */
  lemma IndexOfAfter(a: string, c: char, b: string)
    requires c !in a
    ensures IndexOf(a + [c] + b, c) == |a|
  {
    var s := a + [c] + b;
    assert s[|a|] == c;
    assert forall k :: 0 <= k < |a| ==> s[k] == a[k];
  }

  /** `parts.join(sep)`: the pieces with one separator between neighbours. */
  function Join(parts: seq<string>, sep: char): string
    requires |parts| >= 1
  {
    if |parts| == 1 then parts[0] else parts[0] + [sep] + Join(parts[1..], sep)
  }

  /** `s.split(sep)` for a one-character separator and no limit: the pieces
      between separators, in order; `s` with no separator is one piece. */
  function Split(s: string, sep: char): (parts: seq<string>)
    ensures |parts| >= 1
    ensures forall i :: 0 <= i < |parts| ==> sep !in parts[i]
    ensures Join(parts, sep) == s
    decreases |s|
  {
    var i := IndexOf(s, sep);
    if i == |s| then [s]
    else
      var rest := Split(s[i + 1..], sep);
      assert ([s[..i]] + rest)[1..] == rest;
      assert s == s[..i] + [sep] + s[i + 1..];
      [s[..i]] + rest
  }

  /** Split undoes Join: a separator-free list of pieces is recovered exactly
      from its joined text, so the pieces Split finds are the only ones. */
  lemma {:induction false} SplitJoin(parts: seq<string>, sep: char)
    requires |parts| >= 1
    requires forall i :: 0 <= i < |parts| ==> sep !in parts[i]
    ensures Split(Join(parts, sep), sep) == parts
    decreases |parts|
  {
    var s := Join(parts, sep);
    if |parts| == 1 {
      assert IndexOf(s, sep) == |s|;
    } else {
      var head := parts[0];
      var rest := Join(parts[1..], sep);
      assert s == head + [sep] + rest;
      IndexOfAfter(head, sep, rest);
      assert s[..|head|] == head;
      assert s[|head| + 1..] == rest;
      SplitJoin(parts[1..], sep);
      assert parts == [head] + parts[1..];
    }
  }

  /** The first piece of a split ends at the first separator, and the second
      one (when there is a separator) at the next. */
  lemma SplitLeadingPieces(s: string, sep: char)
    ensures Split(s, sep)[0] == s[..IndexOf(s, sep)]
    ensures IndexOf(s, sep) < |s| ==>
      var t := s[IndexOf(s, sep) + 1..];
      |Split(s, sep)| >= 2 && Split(s, sep)[1] == t[..IndexOf(t, sep)]
  {
  }

  /** `xs[i]` on a JavaScript array: `undefined` past the end. */
  function At<T>(xs: seq<T>, i: nat): Option<T>
  {
    if i < |xs| then Some(xs[i]) else None
  }

  /** `${v}` for a string or `undefined`: the latter becomes the text "undefined". */
  function Interpolate(v: Option<string>): string
  {
    match v
    case None => "undefined"
    case Some(t) => t
  }

  /** `${s.split('/')[1]}`: the text after the first `/` up to the next `/`
      or the end, or the literal "undefined" when `s` has no `/`. */
  function SecondSegment(s: string): (r: string)
    ensures '/' !in r
    ensures '/' !in s ==> r == "undefined"
    ensures '/' in s ==>
      var t := s[IndexOf(s, '/') + 1..];
      r == t[..IndexOf(t, '/')]
  {
    SplitLeadingPieces(s, '/');
    Interpolate(At(Split(s, '/'), 1))
  }

  /** `${(a + '/' + b).split('/')[1]}` is `b` when neither part holds `/`. */
  lemma SecondSegmentOf(a: string, b: string)
    requires '/' !in a && '/' !in b
    ensures SecondSegment(a + ['/'] + b) == b
  {
  }

  predicate IsDigit(c: char)
  {
    '0' <= c <= '9'
  }

  predicate AllDigits(s: string)
  {
    forall i :: 0 <= i < |s| ==> IsDigit(s[i])
  }

  /** The way JavaScript prints a non-negative integer: at least one digit,
      and no leading zero unless the number is 0. */
  predicate IsCanonicalDecimal(s: string)
  {
    |s| >= 1 && AllDigits(s) && (s[0] == '0' ==> |s| == 1)
  }

  function DigitChar(d: nat): (c: char)
    requires d < 10
    ensures IsDigit(c)
  {
    ('0' as int + d) as char
  }

  function DigitValue(c: char): (d: nat)
    requires IsDigit(c)
    ensures d < 10
  {
    c as int - '0' as int
  }

  /** The value a string of decimal digits denotes. */
  function ParseDigits(s: string): nat
    requires AllDigits(s)
  {
    if |s| == 0 then 0
    else 10 * ParseDigits(s[..|s| - 1]) + DigitValue(s[|s| - 1])
  }

  /** `${n}` for a non-negative integer Number below 10^21 (Date.now() is). */
  function Decimal(n: nat): (s: string)
    ensures IsCanonicalDecimal(s)
    decreases n
  {
    if n < 10 then [DigitChar(n)]
    else Decimal(n / 10) + [DigitChar(n % 10)]
  }

  /** Reading the rendering of a number back gives the number. */
  lemma {:induction false} ParseDecimal(n: nat)
    ensures ParseDigits(Decimal(n)) == n
    decreases n
  {
    if n >= 10 {
      var s := Decimal(n);
      ParseDecimal(n / 10);
      assert s[..|s| - 1] == Decimal(n / 10);
      assert DigitValue(DigitChar(n % 10)) == n % 10;
    }
  }

  lemma {:induction false} ParseDigitsPositive(s: string)
    requires |s| >= 1 && AllDigits(s) && s[0] != '0'
    ensures ParseDigits(s) >= 1
    decreases |s|
  {
    if |s| > 1 {
      ParseDigitsPositive(s[..|s| - 1]);
    }
  }

  /** Every canonical digit string is the rendering of the number it denotes,
      so Decimal and ParseDigits are inverse bijections. */
  lemma {:induction false} DecimalOfParse(s: string)
    requires IsCanonicalDecimal(s)
    ensures Decimal(ParseDigits(s)) == s
    decreases |s|
  {
    if |s| > 1 {
      var init := s[..|s| - 1];
      var d := DigitValue(s[|s| - 1]);
      ParseDigitsPositive(init);
      DecimalOfParse(init);
      var n := ParseDigits(s);
      assert n == 10 * ParseDigits(init) + d;
      assert n / 10 == ParseDigits(init) && n % 10 == d;
      assert DigitChar(d) == s[|s| - 1];
      assert s == init + [s[|s| - 1]];
    } else {
      assert DigitChar(DigitValue(s[0])) == s[0];
    }
  }

  /** Distinct timestamps render as distinct digit strings. */
  lemma DecimalInjective(m: nat, n: nat)
    ensures Decimal(m) == Decimal(n) <==> m == n
  {
    ParseDecimal(m);
    ParseDecimal(n);
  }
}
