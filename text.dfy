/**
 * Python's string primitives as the pipeline uses them: the whitespace class of
 * `str.isspace` (which `split`, `strip` and the regular expression `\s` share),
 * `strip`, `split`, `lower`, `isupper`, `in` on strings and `sep.join`.
 * Case mapping and `isupper` are modelled on ASCII letters only.
 */
module Text {

  /** `c.isspace()`: the code points Python treats as whitespace. */
  predicate IsSpace(c: char) {
    var n := c as int;
    n == 0x20 || 0x09 <= n <= 0x0D || 0x1C <= n <= 0x1F || n == 0x85 || n == 0xA0
    || n == 0x1680 || 0x2000 <= n <= 0x200A || n == 0x2028 || n == 0x2029
    || n == 0x202F || n == 0x205F || n == 0x3000
  }

  /** `c.isupper()`, on ASCII letters. */
  predicate IsUpper(c: char) {
    'A' <= c <= 'Z'
  }

  /** Membership in the regular-expression class `\w` (letters, digits, underscore), on ASCII. */
  predicate IsWordChar(c: char) {
    'a' <= c <= 'z' || 'A' <= c <= 'Z' || '0' <= c <= '9' || c == '_'
  }

  function LowerChar(c: char): (d: char)
    ensures IsUpper(c) ==> d as int == c as int + 32
    ensures !IsUpper(c) ==> d == c
    ensures !IsUpper(d)
  {
    if IsUpper(c) then (c as int + 32) as char else c
  }

  /** `s.lower()` */
  function Lower(s: string): (r: string)
    ensures |r| == |s|
  {
    if s == [] then [] else [LowerChar(s[0])] + Lower(s[1..])
  }

  /** `s.lower()` lowers each character in place and leaves no upper-case letter. */
  lemma {:induction false} LowerEach(s: string)
    ensures forall i :: 0 <= i < |s| ==> Lower(s)[i] == LowerChar(s[i]) && !IsUpper(Lower(s)[i])
  {
    if s != [] {
      LowerEach(s[1..]);
    }
  }

  /** `s.lstrip()` */
  function TrimStart(s: string): (r: string)
    ensures |r| <= |s| && r == s[|s| - |r|..]
    ensures r != [] ==> !IsSpace(r[0])
    ensures forall k :: 0 <= k < |s| - |r| ==> IsSpace(s[k])
  {
    if s != [] && IsSpace(s[0]) then TrimStart(s[1..]) else s
  }

  /** `s.rstrip()` */
  function TrimEnd(s: string): (r: string)
    ensures |r| <= |s| && r == s[..|r|]
    ensures r != [] ==> !IsSpace(r[|r| - 1])
    ensures forall k :: |r| <= k < |s| ==> IsSpace(s[k])
  {
    if s != [] && IsSpace(s[|s| - 1]) then TrimEnd(s[..|s| - 1]) else s
  }

  ghost predicate AllSpace(s: string) {
    forall k :: 0 <= k < |s| ==> IsSpace(s[k])
  }

  /** `r` is `s` with whitespace, and only whitespace, removed from either end. */
  ghost predicate IsTrimOf(r: string, s: string) {
    exists i :: 0 <= i <= |s| - |r| && s[i..i + |r|] == r && AllSpace(s[..i]) && AllSpace(s[i + |r|..])
  }

  /** `s.strip()`: the longest slice of `s` that neither starts nor ends with whitespace. */
  function Strip(s: string): (r: string)
    ensures |r| <= |s|
    ensures r != [] ==> !IsSpace(r[0]) && !IsSpace(r[|r| - 1])
  {
    TrimEnd(TrimStart(s))
  }

  /** What `Strip` removes is whitespace, from either end, and nothing else. */
  lemma StripTrims(s: string)
    ensures IsTrimOf(Strip(s), s)
  {
    var t := TrimStart(s);
    var r := TrimEnd(t);
    var i := |s| - |t|;
    assert s[i..i + |r|] == r && AllSpace(s[..i]) && AllSpace(s[i + |r|..]);
  }

  lemma StripIdempotent(s: string)
    ensures Strip(Strip(s)) == Strip(s)
  {
    var r := Strip(s);
    assert TrimStart(r) == r;
    assert TrimEnd(r) == r;
  }

  /** `not s.strip()` holds exactly when every character of `s` is whitespace. */
  lemma StripEmpty(s: string)
    ensures Strip(s) == [] <==> AllSpace(s)
  {
    var t := TrimStart(s);
    var r := TrimEnd(t);
    var i := |s| - |t|;
    if r != [] {
      assert s[i] == t[0] == r[0];
    }
  }

  predicate IsPrefix(a: string, b: string) {
    |a| <= |b| && b[..|a|] == a
  }

  /** Python's `a in b` on strings. */
  predicate IsSubstring(a: string, b: string) {
    exists i :: 0 <= i <= |b| && OccursAt(a, b, i)
  }

  /** `a` occurs in `b` starting at index `i`. */
  predicate OccursAt(a: string, b: string, i: int) {
    0 <= i && i + |a| <= |b| && b[i..i + |a|] == a
  }

  /** Number of leading characters of `s` that are not whitespace. */
  function WordLength(s: string): (n: nat)
    ensures n <= |s|
    ensures forall k :: 0 <= k < n ==> !IsSpace(s[k])
    ensures n < |s| ==> IsSpace(s[n])
  {
    if s == [] || IsSpace(s[0]) then 0 else 1 + WordLength(s[1..])
  }

  /** `s.split()`: the maximal runs of non-whitespace characters, in order. */
  function Words(s: string): (ws: seq<string>)
    ensures forall w :: w in ws ==> w != [] && forall k :: 0 <= k < |w| ==> !IsSpace(w[k])
    decreases |s|
  {
    var t := TrimStart(s);
    if t == [] then []
    else
      var n := WordLength(t);
      FirstWordShape(t);
      var w, rest := t[..n], Words(t[n..]);
      assert forall v :: v in [w] + rest ==> v == w || v in rest;
      [w] + rest
  }

  /** A text that does not start with whitespace splits into its first word and the
      rest, which is empty or starts with whitespace. */
  lemma FirstWordShape(t: string)
    requires t != [] && !IsSpace(t[0])
    ensures var n := WordLength(t);
      && t[..n] != [] && (forall k :: 0 <= k < |t[..n]| ==> !IsSpace(t[..n][k]))
      && (t[n..] != [] ==> IsSpace(t[n..][0]))
      && t == t[..n] + t[n..]
  {
  }

  /** `s.split()` on a text that is not blank: the first word, then the words of the rest. */
  lemma WordsFirst(s: string)
    requires TrimStart(s) != []
    ensures var t := TrimStart(s); Words(s) == [t[..WordLength(t)]] + Words(t[WordLength(t)..])
  {
  }

  /** `sep.join(parts)` */
  function Join(sep: string, parts: seq<string>): string
  {
    if parts == [] then ""
    else if |parts| == 1 then parts[0]
    else parts[0] + sep + Join(sep, parts[1..])
  }

  /** A join is empty only when every part is empty and there is at most one of them. */
  lemma {:induction false} JoinNonEmpty(sep: string, parts: seq<string>, i: nat)
    requires i < |parts| && parts[i] != []
    ensures Join(sep, parts) != []
  {
    if |parts| > 1 && i > 0 {
      JoinNonEmpty(sep, parts[1..], i - 1);
    }
  }

  /** Joining one more part appends the separator and that part. */
  lemma {:induction false} JoinSnoc(sep: string, parts: seq<string>, x: string)
    requires parts != []
    ensures Join(sep, parts + [x]) == Join(sep, parts) + sep + x
  {
    if |parts| > 1 {
      assert (parts + [x])[1..] == parts[1..] + [x];
      JoinSnoc(sep, parts[1..], x);
    } else {
      assert (parts + [x])[1..] == [x];
    }
  }

  /** A part with a character that is not whitespace keeps its join from being blank. */
  lemma {:induction false} JoinNotAllSpace(sep: string, parts: seq<string>, i: nat, k: nat)
    requires i < |parts| && k < |parts[i]| && !IsSpace(parts[i][k])
    ensures !AllSpace(Join(sep, parts))
  {
    if |parts| == 1 {
      assert Join(sep, parts)[k] == parts[0][k];
    } else if i == 0 {
      assert Join(sep, parts)[k] == parts[0][k];
    } else {
      JoinNotAllSpace(sep, parts[1..], i - 1, k);
      var rest := Join(sep, parts[1..]);
      var m :| 0 <= m < |rest| && !IsSpace(rest[m]);
      assert Join(sep, parts)[|parts[0]| + |sep| + m] == rest[m];
    }
  }
}
