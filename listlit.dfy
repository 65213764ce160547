/** The textual form of the `anhaenge` column. A list of attachment names
    written to a CSV file comes back as the text Python's `str(list)`
    produced, for example `['a.pdf', 'b.pdf']`; the overview page turns it
    back into a list with `ast.literal_eval`. This module gives both
    directions for lists of strings and proves that reading back what was
    written returns the same names. */
module ListLiteral {
  import opened Wrappers

  /** A character Python's `repr` writes unchanged between single quotes:
      printable, not a quote and not a backslash. */
  predicate PlainChar(c: char) {
    (' ' <= c <= '~' && c != '\'' && c != '\\')
    || ('\U{A1}' <= c <= '\U{FF}' && c != '\U{AD}')
  }

  predicate PlainName(x: string) {
    forall i :: 0 <= i < |x| ==> PlainChar(x[i])
  }

  predicate PlainNames(xs: seq<string>) {
    forall i :: 0 <= i < |xs| ==> PlainName(xs[i])
  }

  function Quote(x: string): string {
    "'" + x + "'"
  }

  function Items(xs: seq<string>): string {
    if |xs| == 0 then ""
    else if |xs| == 1 then Quote(xs[0])
    else Quote(xs[0]) + ", " + Items(xs[1..])
  }

  /** `str(xs)` for a list of plain names. */
  function Repr(xs: seq<string>): string {
    "[" + Items(xs) + "]"
  }

  /** Whitespace the Python tokenizer skips inside brackets. */
  predicate IsGap(c: char) {
    c == ' ' || c == '\t' || c == '\U{C}' || c == '\n' || c == '\r'
  }

  function SkipGap(s: string): (r: string)
    ensures |r| <= |s|
    ensures r == "" || !IsGap(r[0])
  {
    if |s| > 0 && IsGap(s[0]) then SkipGap(s[1..]) else s
  }

  /** `literal_eval` first drops leading spaces and tabs. */
  function SkipIndent(s: string): (r: string)
    ensures |r| <= |s|
  {
    if |s| > 0 && (s[0] == ' ' || s[0] == '\t') then SkipIndent(s[1..]) else s
  }

  /** The body of a string literal up to its closing quote `q`, and what
      follows the quote. Escapes and line breaks are not accepted. */
  function StringBody(s: string, q: char): (r: Option<(string, string)>)
    ensures r.Some? ==> |r.value.1| < |s|
  {
    if |s| == 0 then None
    else if s[0] == q then Some(("", s[1..]))
    else if s[0] == '\\' || s[0] == '\n' || s[0] == '\r' then None
    else
      match StringBody(s[1..], q)
      case None => None
      case Some((body, rest)) => Some(([s[0]] + body, rest))
  }

  /** A string literal in single or double quotes. */
  function StringLit(s: string): (r: Option<(string, string)>)
    ensures r.Some? ==> |r.value.1| < |s|
  {
    if |s| > 0 && (s[0] == '\'' || s[0] == '"') then StringBody(s[1..], s[0]) else None
  }

  /** After the closing bracket only whitespace may follow. */
  function Close(rest: string, xs: seq<string>): Option<seq<string>> {
    if SkipGap(rest) == "" then Some(xs) else None
  }

  /** The elements of a list literal, starting just after `[` and its
      whitespace: `]`, or string literals separated by commas, with an
      optional trailing comma, then `]`. */
  function Elements(s: string): Option<seq<string>>
    decreases |s|
  {
    if |s| == 0 then None
    else if s[0] == ']' then Close(s[1..], [])
    else
      match StringLit(s)
      case None => None
      case Some((x, rest)) =>
        var t := SkipGap(rest);
        if |t| == 0 then None
        else if t[0] == ']' then Close(t[1..], [x])
        else if t[0] == ',' then
          match Elements(SkipGap(t[1..]))
          case None => None
          case Some(xs) => Some([x] + xs)
        else None
  }

  /** `ast.literal_eval(s)` where the result is a list of strings; `None`
      for every text that is not such a literal. */
  function Parse(s: string): Option<seq<string>> {
    var t := SkipIndent(s);
    if |t| > 0 && t[0] == '[' then Elements(SkipGap(t[1..])) else None
  }

  lemma {:induction false} StringBodyOfPlain(x: string, tail: string)
    requires PlainName(x)
    ensures StringBody(x + "'" + tail, '\'') == Some((x, tail))
  {
    if |x| == 0 {
      assert x + "'" + tail == "'" + tail;
    } else {
      assert (x + "'" + tail)[1..] == x[1..] + "'" + tail;
      assert PlainChar(x[0]);
      StringBodyOfPlain(x[1..], tail);
      assert [x[0]] + x[1..] == x;
    }
  }

  lemma QuoteLit(x: string, tail: string)
    requires PlainName(x)
    ensures StringLit(Quote(x) + tail) == Some((x, tail))
  {
    var s := Quote(x) + tail;
    assert s[1..] == x + "'" + tail;
    StringBodyOfPlain(x, tail);
  }

  lemma ItemsStart(xs: seq<string>)
    requires |xs| > 0
    ensures |Items(xs)| > 0 && Items(xs)[0] == '\''
  {
  }

  /** A string literal followed by a comma: the element and the rest. */
  lemma ElementsComma(s: string, x: string, tail: string)
    requires |s| > 0 && s[0] != ']' && StringLit(s) == Some((x, tail))
    requires |tail| > 0 && tail[0] == ','
    requires Elements(SkipGap(tail[1..])).Some?
    ensures Elements(s) == Some([x] + Elements(SkipGap(tail[1..])).value)
  {
  }

  /** A string literal followed by the closing bracket. */
  lemma ElementsLast(s: string, x: string)
    requires |s| > 0 && s[0] != ']' && StringLit(s) == Some((x, "]"))
    ensures Elements(s) == Some([x])
  {
    assert SkipGap("]") == "]";
    assert SkipGap("") == "";
  }

  /** The separator `, ` is skipped up to the next quote. */
  lemma SkipSeparator(rest: string)
    requires |rest| > 0 && rest[0] == '\''
    ensures SkipGap((", " + rest)[1..]) == rest
  {
    assert (", " + rest)[1..] == " " + rest;
    assert (" " + rest)[1..] == rest;
  }

  /** One step of `Elements` over a quoted name followed by a comma. */
  lemma ElementsCons(x: string, rest: string)
    requires PlainName(x)
    requires |rest| > 0 && rest[0] == '\''
    requires Elements(rest).Some?
    ensures Elements(Quote(x) + ", " + rest) == Some([x] + Elements(rest).value)
  {
    var tail := ", " + rest;
    var s := Quote(x) + tail;
    assert Quote(x) + ", " + rest == s;
    QuoteLit(x, tail);
    SkipSeparator(rest);
    ElementsComma(s, x, tail);
  }

  lemma ElementsOfNone()
    ensures Elements("]") == Some([])
  {
    assert "]"[1..] == "";
    assert SkipGap("") == "";
  }

  lemma ElementsOfOne(x: string)
    requires PlainName(x)
    ensures Elements(Quote(x) + "]") == Some([x])
  {
    QuoteLit(x, "]");
    ElementsLast(Quote(x) + "]", x);
  }

  /** The items of two or more names: the first quoted, a separator, the rest. */
  lemma ItemsCons(xs: seq<string>)
    requires |xs| >= 2
    ensures Items(xs) + "]" == Quote(xs[0]) + ", " + (Items(xs[1..]) + "]")
  {
  }

  lemma {:induction false} ElementsOfItems(xs: seq<string>)
    requires PlainNames(xs)
    ensures Elements(Items(xs) + "]") == Some(xs)
  {
    if |xs| == 0 {
      assert Items(xs) + "]" == "]";
      ElementsOfNone();
    } else if |xs| == 1 {
      assert PlainName(xs[0]);
      assert Items(xs) + "]" == Quote(xs[0]) + "]";
      ElementsOfOne(xs[0]);
      assert [xs[0]] == xs;
    } else {
      var x, rest := xs[0], xs[1..];
      assert PlainName(x) && PlainNames(rest);
      ItemsStart(rest);
      ItemsCons(xs);
      ElementsOfItems(rest);
      ElementsCons(x, Items(rest) + "]");
      assert [x] + rest == xs;
    }
  }

  /** Reading back what `str(list)` wrote gives the same list of names,
      in the same order; the empty list included. */
  lemma ParseRepr(xs: seq<string>)
    requires PlainNames(xs)
    ensures Parse(Repr(xs)) == Some(xs)
  {
    var s := Repr(xs);
    assert SkipIndent(s) == s;
    assert s[1..] == Items(xs) + "]";
    if |xs| > 0 {
      ItemsStart(xs);
    }
    assert SkipGap(s[1..]) == s[1..];
    ElementsOfItems(xs);
  }

  /** Different lists of plain names are written differently. */
  lemma ReprInjective(xs: seq<string>, ys: seq<string>)
    requires PlainNames(xs) && PlainNames(ys)
    requires Repr(xs) == Repr(ys)
    ensures xs == ys
  {
    ParseRepr(xs);
    ParseRepr(ys);
  }
}
