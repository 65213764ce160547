/** The handful of Python `str` operations the journal pages use on names,
    titles and search terms: `strip`, `lower`, `replace` of one character,
    `endswith`, `in` (substring), `split` and `os.path.basename`. */
module Text {

  /** The characters for which Python's `str.isspace()` is true. */
  predicate IsSpace(c: char) {
    var n := c as int;
    n == 0x20 || (0x09 <= n <= 0x0D) || (0x1C <= n <= 0x1F)
    || n == 0x85 || n == 0xA0 || n == 0x1680
    || (0x2000 <= n <= 0x200A) || n == 0x2028 || n == 0x2029
    || n == 0x202F || n == 0x205F || n == 0x3000
  }

  /** The first index at or after `i` that is not whitespace (or `|s|`). */
  function LeadFrom(s: string, i: nat): (r: nat)
    requires i <= |s|
    ensures i <= r <= |s|
    ensures forall k :: i <= k < r ==> IsSpace(s[k])
    ensures r == |s| || !IsSpace(s[r])
    decreases |s| - i
  {
    if i < |s| && IsSpace(s[i]) then LeadFrom(s, i + 1) else i
  }

  /** The end of `s[lo..j]` once trailing whitespace is dropped. */
  function TrailFrom(s: string, lo: nat, j: nat): (r: nat)
    requires lo <= j <= |s|
    ensures lo <= r <= j
    ensures forall k :: r <= k < j ==> IsSpace(s[k])
    ensures r == lo || !IsSpace(s[r - 1])
  {
    if j > lo && IsSpace(s[j - 1]) then TrailFrom(s, lo, j - 1) else j
  }

  /** `r` sits at index `i` of `s` with only whitespace around it. */
  predicate StrippedAt(s: string, r: string, i: int) {
    && 0 <= i <= |s| - |r| && r == s[i..i + |r|]
    && (forall k :: 0 <= k < i ==> IsSpace(s[k]))
    && (forall k :: i + |r| <= k < |s| ==> IsSpace(s[k]))
  }

  /** `s.strip()`: the infix of `s` left when whitespace is taken off both
      ends; everything taken off is whitespace and the result neither starts
      nor ends with whitespace. */
  function Strip(s: string): (r: string)
    ensures exists i :: StrippedAt(s, r, i)
    ensures r == "" || (!IsSpace(r[0]) && !IsSpace(r[|r| - 1]))
  {
    var i := LeadFrom(s, 0);
    var j := TrailFrom(s, i, |s|);
    assert StrippedAt(s, s[i..j], i);
    s[i..j]
  }

  /** A string strips to "" exactly when it is all whitespace. */
  lemma StripEmptyIff(s: string)
    ensures Strip(s) == "" <==> forall k :: 0 <= k < |s| ==> IsSpace(s[k])
  {
    var r := Strip(s);
    if r == "" {
      var i :| StrippedAt(s, r, i);
    } else {
      var i :| StrippedAt(s, r, i);
      assert s[i] == r[0];
    }
  }

  /** Stripping drops whitespace around a text that neither starts nor
      ends with whitespace, and nothing else. */
  lemma StripAround(a: string, m: string, b: string)
    requires forall k :: 0 <= k < |a| ==> IsSpace(a[k])
    requires forall k :: 0 <= k < |b| ==> IsSpace(b[k])
    requires m != "" && !IsSpace(m[0]) && !IsSpace(m[|m| - 1])
    ensures Strip(a + m + b) == m
  {
    var s := a + m + b;
    assert s[|a|] == m[0] && s[|a| + |m| - 1] == m[|m| - 1];
    var i := LeadFrom(s, 0);
    assert i == |a|;
    var j := TrailFrom(s, i, |s|);
    assert j == |a| + |m|;
    assert s[i..j] == m;
  }

  /** Python's `str.lower()` on the Basic Latin and Latin-1 letters
      (A-Z and À-Þ except ×); every other character is left alone. */
  function LowerChar(c: char): char {
    if 'A' <= c <= 'Z' || ('\U{C0}' <= c <= '\U{DE}' && c != '\U{D7}') then
      (c as int + 32) as char
    else
      c
  }

  function Lower(s: string): (r: string)
    ensures |r| == |s|
  {
    seq(|s|, i requires 0 <= i < |s| => LowerChar(s[i]))
  }

  /** Lower-casing works character by character, so it commutes with
      slicing and is idempotent. */
  lemma LowerSlice(s: string, i: nat, j: nat)
    requires i <= j <= |s|
    ensures Lower(s)[i..j] == Lower(s[i..j])
  {
  }

  lemma LowerIdempotent(s: string)
    ensures Lower(Lower(s)) == Lower(s)
  {
  }

  /** `s.replace(c, t)` for a single character `c`. */
  function ReplaceChar(s: string, c: char, t: string): string {
    if |s| == 0 then ""
    else (if s[0] == c then t else [s[0]]) + ReplaceChar(s[1..], c, t)
  }

  lemma ReplaceCharSingle(d: char, c: char, t: string)
    ensures ReplaceChar([d], c, t) == if d == c then t else [d]
  {
    assert [d][1..] == "";
  }

  lemma {:induction false} ReplaceCharAppend(a: string, b: string, c: char, t: string)
    ensures ReplaceChar(a + b, c, t) == ReplaceChar(a, c, t) + ReplaceChar(b, c, t)
  {
    if |a| > 0 {
      assert (a + b)[1..] == a[1..] + b;
      ReplaceCharAppend(a[1..], b, c, t);
    } else {
      assert a + b == b;
    }
  }

  /** After the replacement `c` is gone, provided `t` does not bring it back. */
  lemma {:induction false} ReplaceCharRemoves(s: string, c: char, t: string)
    requires c !in t
    ensures c !in ReplaceChar(s, c, t)
  {
    if |s| > 0 {
      ReplaceCharRemoves(s[1..], c, t);
    }
  }

  /** A character absent from both `s` and `t` stays absent. */
  lemma {:induction false} ReplaceCharKeepsAbsent(s: string, c: char, t: string, d: char)
    requires d !in s && d !in t
    ensures d !in ReplaceChar(s, c, t)
  {
    if |s| > 0 {
      assert s[0] != d;
      ReplaceCharKeepsAbsent(s[1..], c, t, d);
    }
  }

  /** Replacing a character that does not occur changes nothing. */
  lemma {:induction false} ReplaceCharNoop(s: string, c: char, t: string)
    requires c !in s
    ensures ReplaceChar(s, c, t) == s
  {
    if |s| > 0 {
      ReplaceCharNoop(s[1..], c, t);
      assert s == [s[0]] + s[1..];
    }
  }

  /** Replacing a character by a one-character string maps every position
      on its own. */
  lemma {:induction false} ReplaceCharPointwise(s: string, c: char, d: char)
    ensures |ReplaceChar(s, c, [d])| == |s|
    ensures forall i :: 0 <= i < |s| ==>
      ReplaceChar(s, c, [d])[i] == (if s[i] == c then d else s[i])
  {
    if |s| > 0 {
      ReplaceCharPointwise(s[1..], c, d);
    }
  }

  predicate StartsWith(s: string, prefix: string) {
    |prefix| <= |s| && s[..|prefix|] == prefix
  }

  predicate EndsWith(s: string, suffix: string) {
    |suffix| <= |s| && s[|s| - |suffix|..] == suffix
  }

  predicate OccursAt(s: string, sub: string, i: int) {
    0 <= i <= |s| - |sub| && s[i..i + |sub|] == sub
  }

  /** Python's `sub in s`. */
  predicate Contains(s: string, sub: string) {
    exists i | 0 <= i <= |s| - |sub| :: OccursAt(s, sub, i)
  }

  lemma ContainsTail(a: string, b: string)
    ensures Contains(a + b, b)
  {
    assert (a + b)[|a|..|a| + |b|] == b;
    assert OccursAt(a + b, b, |a|);
  }

  lemma EndsWithConcat(a: string, b: string)
    ensures EndsWith(a + b, b)
  {
    assert (a + b)[|a|..] == b;
  }

  lemma EndsWithContains(s: string, suffix: string)
    requires EndsWith(s, suffix)
    ensures Contains(s, suffix)
  {
    assert OccursAt(s, suffix, |s| - |suffix|);
  }

  lemma StartsWithContains(s: string, prefix: string)
    requires StartsWith(s, prefix)
    ensures Contains(s, prefix)
  {
    assert OccursAt(s, prefix, 0);
  }

  /** `sep.join(parts)` for a one-character separator. */
  function Join(parts: seq<string>, sep: char): string
    requires |parts| >= 1
  {
    if |parts| == 1 then parts[0] else parts[0] + [sep] + Join(parts[1..], sep)
  }

  /** Joining keeps the last part at the end, after one separator. */
  lemma {:induction false} JoinLast(parts: seq<string>, sep: char)
    requires |parts| >= 2
    ensures Join(parts, sep) == Join(parts[..|parts| - 1], sep) + [sep] + parts[|parts| - 1]
  {
    var init := parts[..|parts| - 1];
    if |parts| > 2 {
      JoinLast(parts[1..], sep);
      assert parts[1..][..|parts| - 2] == init[1..];
      assert init[0] == parts[0];
    } else {
      assert init == [parts[0]];
    }
  }

  /** Python's `s.split(sep)` for a one-character separator: always at least
      one field, no field holds the separator, and joining the fields back
      with the separator gives `s` again. */
  function Split(s: string, sep: char): (r: seq<string>)
    ensures |r| >= 1
    ensures forall i :: 0 <= i < |r| ==> sep !in r[i]
    ensures Join(r, sep) == s
    ensures |r| == 1 <==> sep !in s
  {
    if |s| == 0 then [""]
    else
      var rest := Split(s[1..], sep);
      assert s == [s[0]] + s[1..];
      if s[0] == sep then
        JoinEmptyFirst(rest, sep);
        [""] + rest
      else
        JoinExtendFirst(s[0], rest, sep);
        var r := [[s[0]] + rest[0]] + rest[1..];
        assert forall i :: 1 <= i < |r| ==> r[i] == rest[i];
        r
  }

  lemma JoinEmptyFirst(rest: seq<string>, sep: char)
    requires |rest| >= 1
    ensures Join([""] + rest, sep) == [sep] + Join(rest, sep)
  {
    assert ([""] + rest)[1..] == rest;
  }

  lemma JoinExtendFirst(c: char, rest: seq<string>, sep: char)
    requires |rest| >= 1
    ensures Join([[c] + rest[0]] + rest[1..], sep) == [c] + Join(rest, sep)
  {
    var r := [[c] + rest[0]] + rest[1..];
    if |rest| > 1 {
      assert r[1..] == rest[1..];
    }
  }

  /** A leading character other than the separator joins the first field. */
  lemma SplitCons(c: char, t: string, sep: char)
    requires c != sep
    ensures Split([c] + t, sep) == [[c] + Split(t, sep)[0]] + Split(t, sep)[1..]
  {
    assert ([c] + t)[1..] == t;
  }

  /** Splitting at a first separator gives the text before it, then the
      fields of the rest. */
  lemma {:induction false} SplitAtFirst(a: string, b: string, sep: char)
    requires sep !in a
    ensures Split(a + [sep] + b, sep) == [a] + Split(b, sep)
  {
    if |a| == 0 {
      assert a + [sep] + b == [sep] + b && ([sep] + b)[1..] == b;
    } else {
      var t := a[1..] + [sep] + b;
      assert a + [sep] + b == [a[0]] + t;
      SplitAtFirst(a[1..], b, sep);
      SplitCons(a[0], t, sep);
      assert [a[0]] + a[1..] == a;
    }
  }

  /** `os.path.basename`: the part after the last '/', which is the whole
      path when it has none. */
  function Basename(path: string): (r: string)
    ensures '/' !in r
    ensures EndsWith(path, r)
    ensures r == path || (|r| < |path| && path[|path| - |r| - 1] == '/')
  {
    var parts := Split(path, '/');
    BasenameSuffix(parts);
    parts[|parts| - 1]
  }

  lemma {:induction false} BasenameSuffix(parts: seq<string>)
    requires |parts| >= 1
    ensures EndsWith(Join(parts, '/'), parts[|parts| - 1])
    ensures |parts| == 1 ==> Join(parts, '/') == parts[0]
    ensures |parts| > 1 ==>
      var j, last := Join(parts, '/'), parts[|parts| - 1];
      |last| < |j| && j[|j| - |last| - 1] == '/'
  {
    if |parts| > 1 {
      var rest := parts[1..];
      BasenameSuffix(rest);
      var j, j', last := Join(parts, '/'), Join(rest, '/'), parts[|parts| - 1];
      assert rest[|rest| - 1] == last;
      assert j == (parts[0] + ['/']) + j';
      assert j[|j| - |last| - 1] == '/' by {
        if |rest| == 1 {
          assert j' == last;
        } else {
          assert j[|j| - |last| - 1] == j'[|j'| - |last| - 1];
        }
      }
    }
  }

  /** A name without '/' is its own basename. */
  lemma BasenameOfPlain(name: string)
    requires '/' !in name
    ensures Basename(name) == name
  {
  }
}
