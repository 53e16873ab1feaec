/**
 * `clean_relevant_context`, which tidies the "Relevant Context" snippet a model returns:
 * the text is run through Python's `unicode_escape` codec, literal `\uXXXX` escapes left
 * over are deleted, every run of whitespace becomes one space and the ends are stripped.
 * The codec is a parameter: it maps a string to its decoding or to the error it raises.
 */
module ContextCleaning {
  import opened Text
  import opened Seqs
  import opened Wrappers

  predicate IsHexDigit(c: char) {
    '0' <= c <= '9' || 'a' <= c <= 'f' || 'A' <= c <= 'F'
  }

  /** A literal backslash, `u` and four hexadecimal digits start at index `i`. */
  predicate UEscapeAt(s: string, i: nat) {
    i + 6 <= |s| && s[i] == '\\' && s[i + 1] == 'u'
    && IsHexDigit(s[i + 2]) && IsHexDigit(s[i + 3]) && IsHexDigit(s[i + 4]) && IsHexDigit(s[i + 5])
  }

  /** `re.sub(r'\\u[0-9a-fA-F]{4}', '', s)`: matches are found left to right, without overlap. */
  function RemoveUEscapes(s: string): (r: string)
    ensures |r| <= |s|
    decreases |s|
  {
    if UEscapeAt(s, 0) then RemoveUEscapes(s[6..])
    else if s == [] then []
    else [s[0]] + RemoveUEscapes(s[1..])
  }

  /** Text with no backslash has no escape to delete. */
  lemma {:induction false} RemoveUEscapesKeepsPlain(s: string)
    requires forall k :: 0 <= k < |s| ==> s[k] != '\\'
    ensures RemoveUEscapes(s) == s
    decreases |s|
  {
    if s != [] {
      RemoveUEscapesKeepsPlain(s[1..]);
    }
  }

  /** Deleting escapes only deletes: what is left keeps its order. */
  lemma {:induction false} RemoveUEscapesIsSubsequence(s: string)
    ensures IsSubsequence(RemoveUEscapes(s), s)
    decreases |s|
  {
    if UEscapeAt(s, 0) {
      RemoveUEscapesIsSubsequence(s[6..]);
      SubsequenceOfSuffix(RemoveUEscapes(s[6..]), s, 6);
    } else if s != [] {
      RemoveUEscapesIsSubsequence(s[1..]);
      assert ([s[0]] + RemoveUEscapes(s[1..]))[1..] == RemoveUEscapes(s[1..]);
    }
  }

  /** `re.sub(r'\s+', ' ', s)`: every maximal run of whitespace becomes a single space. */
  function CollapseSpace(s: string): (r: string)
    ensures |r| <= |s|
    ensures r != [] ==> (IsSpace(r[0]) <==> IsSpace(s[0]))
    decreases |s|
  {
    if s == [] then []
    else if IsSpace(s[0]) then " " + CollapseSpace(TrimStart(s[1..]))
    else [s[0]] + CollapseSpace(s[1..])
  }

  /** `re.sub(r'\s+', ' ', text).strip()`, the whitespace step. */
  function NormalizeSpace(s: string): string {
    Strip(CollapseSpace(s))
  }

  /** `clean_relevant_context(text)`; `Err` carries the message of the exception raised. */
  function CleanRelevantContext(text: string, unicodeEscape: string -> Result<string, string>): (r: Result<string, string>)
    ensures r.Err? <==> unicodeEscape(text).Err?
  {
    match unicodeEscape(text)
    case Err(e) => Err(e)
    case Ok(decoded) => Ok(NormalizeSpace(RemoveUEscapes(decoded)))
  }

  /** The only whitespace is single spaces between words: no whitespace at either end,
      no two whitespace characters in a row, and no whitespace other than ' '. */
  predicate SingleSpaced(s: string) {
    (s != [] ==> !IsSpace(s[0]) && !IsSpace(s[|s| - 1]))
    && (forall i :: 0 <= i < |s| && IsSpace(s[i]) ==> s[i] == ' ')
    && (forall i :: 0 <= i < |s| - 1 ==> !(IsSpace(s[i]) && IsSpace(s[i + 1])))
  }

  /** The whitespace step is `" ".join(s.split())`: the same words, in the same order,
      separated by single spaces. */
  lemma NormalizeSpaceIsJoinOfWords(s: string)
    ensures NormalizeSpace(s) == Join(" ", Words(s))
  {
    CollapseTrimStart(s);
    TrimEndCollapsed(s);
  }

  /** Hence the cleaned context is single-spaced and keeps the words of the decoded text. */
  lemma CleanRelevantContextSpacing(text: string, unicodeEscape: string -> Result<string, string>)
    requires unicodeEscape(text).Ok?
    ensures SingleSpaced(CleanRelevantContext(text, unicodeEscape).value)
    ensures CleanRelevantContext(text, unicodeEscape).value
         == Join(" ", Words(RemoveUEscapes(unicodeEscape(text).value)))
  {
    var d := RemoveUEscapes(unicodeEscape(text).value);
    NormalizeSpaceIsJoinOfWords(d);
    JoinOfWordsSingleSpaced(Words(d));
  }

  /** Normalising spaces is idempotent: a normalised text has nothing left to change. */
  lemma NormalizeSpaceIdempotent(s: string)
    ensures NormalizeSpace(NormalizeSpace(s)) == NormalizeSpace(s)
  {
    var r := NormalizeSpace(s);
    NormalizeSpaceIsJoinOfWords(s);
    JoinOfWordsSingleSpaced(Words(s));
    SingleSpacedFixed(r);
  }

  /** A single-spaced text is left as it is. */
  lemma {:induction false} SingleSpacedFixed(s: string)
    requires SingleSpaced(s)
    ensures NormalizeSpace(s) == s
  {
    CollapseSingleSpaced(s);
    StripNoEdgeSpace(s);
  }

  lemma {:induction false} CollapseSingleSpaced(s: string)
    requires forall i :: 0 <= i < |s| && IsSpace(s[i]) ==> s[i] == ' '
    requires forall i :: 0 <= i < |s| - 1 ==> !(IsSpace(s[i]) && IsSpace(s[i + 1]))
    ensures CollapseSpace(s) == s
  {
    if s != [] {
      assert forall i :: 0 <= i < |s[1..]| ==> s[1..][i] == s[i + 1];
      if IsSpace(s[0]) {
        assert |s| > 1 ==> !IsSpace(s[1..][0]);
        assert TrimStart(s[1..]) == s[1..];
      }
      CollapseSingleSpaced(s[1..]);
    }
  }

  lemma StripNoEdgeSpace(s: string)
    requires s != [] ==> !IsSpace(s[0]) && !IsSpace(s[|s| - 1])
    ensures Strip(s) == s
  {
    assert TrimStart(s) == s;
    assert TrimEnd(s) == s;
  }

  /** Leading whitespace collapses to one space that the strip then removes. */
  lemma CollapseTrimStart(s: string)
    ensures TrimStart(CollapseSpace(s)) == CollapseSpace(TrimStart(s))
  {
    if s != [] && IsSpace(s[0]) {
      var t := TrimStart(s[1..]);
      var c := CollapseSpace(t);
      assert TrimStart(s) == t;
      assert CollapseSpace(s) == " " + c;
      assert (" " + c)[1..] == c;
      assert TrimStart(" " + c) == TrimStart(c);
      NoLeadingSpace(c);
    } else {
      NoLeadingSpace(s);
      NoLeadingSpace(CollapseSpace(s));
    }
  }

  /** A text that does not start with whitespace has none to strip at the start. */
  lemma NoLeadingSpace(s: string)
    requires s != [] ==> !IsSpace(s[0])
    ensures TrimStart(s) == s
  {
  }

  lemma {:induction false} TrimEndCollapsed(s: string)
    ensures TrimEnd(CollapseSpace(TrimStart(s))) == Join(" ", Words(s))
    decreases |s|, 1
  {
    var t := TrimStart(s);
    if t != [] {
      var n := WordLength(t);
      WordsFirst(s);
      FirstWordShape(t);
      WordThenRestCollapsed(t[..n], t[n..]);
    }
  }

  /** A word followed by whitespace and the rest of the text: the word is copied and the
      rest collapses to its own words, a single space before each. */
  lemma {:induction false} WordThenRestCollapsed(w: string, rest: string)
    requires w != [] && forall k :: 0 <= k < |w| ==> !IsSpace(w[k])
    requires rest != [] ==> IsSpace(rest[0])
    ensures TrimEnd(CollapseSpace(w + rest)) == Join(" ", [w] + Words(rest))
    decreases |w| + |rest|, 0
  {
    CollapseWord(w, rest);
    if TrimStart(rest) == [] {
      BlankTail(w, rest);
      assert [w] + Words(rest) == [w];
    } else {
      SpaceBeforeWord(rest);
      TrimEndCollapsed(rest);
      JoinCons(" ", w, Words(rest));
      WordSpaceRest(w, CollapseSpace(rest), CollapseSpace(TrimStart(rest)), Words(rest));
    }
  }

  /** Only whitespace after the last word: it collapses to at most one space, which the
      final strip removes. */
  lemma BlankTail(w: string, rest: string)
    requires w != [] && !IsSpace(w[|w| - 1]) && TrimStart(rest) == []
    ensures Words(rest) == [] && TrimEnd(w + CollapseSpace(rest)) == w
  {
    CollapseBlank(rest);
    TrimEndDropsSpaces(w, CollapseSpace(rest));
  }

  /** Whitespace before a further word collapses to a single space. */
  lemma SpaceBeforeWord(rest: string)
    requires rest != [] && IsSpace(rest[0]) && TrimStart(rest) != []
    ensures CollapseSpace(rest) == " " + CollapseSpace(TrimStart(rest))
    ensures Words(rest) != [] && forall v :: v in Words(rest) ==> v != []
  {
    assert TrimStart(rest[1..]) == TrimStart(rest);
  }

  lemma WordSpaceRest(w: string, cr: string, cu: string, words: seq<string>)
    requires cr == " " + cu && TrimEnd(cu) == Join(" ", words)
    requires words != [] && forall v :: v in words ==> v != []
    ensures TrimEnd(w + cr) == w + " " + Join(" ", words)
  {
    JoinOfWordsNonEmpty(words);
    TrimEndKeepsPrefix(w + " ", cu);
    assert w + cr == (w + " ") + cu;
  }

  lemma JoinCons(sep: string, w: string, words: seq<string>)
    requires words != []
    ensures Join(sep, [w] + words) == w + sep + Join(sep, words)
  {
    assert ([w] + words)[1..] == words;
  }

  /** A leading word is copied as it is. */
  lemma {:induction false} CollapseWord(w: string, rest: string)
    requires forall k :: 0 <= k < |w| ==> !IsSpace(w[k])
    ensures CollapseSpace(w + rest) == w + CollapseSpace(rest)
    decreases |w|
  {
    if w != [] {
      var v := w[1..];
      ConcatHeadTail(w, rest);
      assert CollapseSpace(w + rest) == [w[0]] + CollapseSpace(v + rest);
      assert forall k :: 0 <= k < |v| ==> v[k] == w[k + 1];
      CollapseWord(v, rest);
      ConcatHeadTail(w, CollapseSpace(rest));
    } else {
      assert w + rest == rest && w + CollapseSpace(rest) == CollapseSpace(rest);
    }
  }

  /** A whitespace-only text collapses to at most one space. */
  lemma CollapseBlank(s: string)
    requires TrimStart(s) == []
    ensures CollapseSpace(s) == [] || CollapseSpace(s) == " "
  {
    if s != [] {
      assert TrimStart(s[1..]) == [];
    }
  }

  lemma TrimEndDropsSpaces(w: string, b: string)
    requires w != [] && !IsSpace(w[|w| - 1])
    requires b == [] || b == " "
    ensures TrimEnd(w + b) == w
  {
    if b == " " {
      assert (w + b)[..|w|] == w;
    } else {
      assert w + b == w;
    }
  }

  /** Whitespace is trimmed from the end of `b` alone when `b` has something left. */
  lemma {:induction false} TrimEndKeepsPrefix(a: string, b: string)
    requires TrimEnd(b) != []
    ensures TrimEnd(a + b) == a + TrimEnd(b)
    decreases |b|
  {
    assert (a + b)[|a + b| - 1] == b[|b| - 1];
    if IsSpace(b[|b| - 1]) {
      assert (a + b)[..|a + b| - 1] == a + b[..|b| - 1];
      TrimEndKeepsPrefix(a, b[..|b| - 1]);
    }
  }

  lemma {:induction false} JoinOfWordsNonEmpty(words: seq<string>)
    requires words != [] && forall w :: w in words ==> w != []
    ensures Join(" ", words) != []
  {
    assert words[0] in words;
    JoinNonEmpty(" ", words, 0);
  }

  /** Words without whitespace, joined by single spaces, are single-spaced. */
  lemma {:induction false} JoinOfWordsSingleSpaced(words: seq<string>)
    requires forall w :: w in words ==> w != [] && forall k :: 0 <= k < |w| ==> !IsSpace(w[k])
    ensures SingleSpaced(Join(" ", words))
  {
    if |words| > 1 {
      var w, rest := words[0], Join(" ", words[1..]);
      assert words[1] in words;
      assert forall v :: v in words[1..] ==> v in words;
      JoinOfWordsSingleSpaced(words[1..]);
      JoinNonEmpty(" ", words[1..], 0);
      var r := w + " " + rest;
      assert Join(" ", words) == r;
      forall i | 0 <= i < |r| && IsSpace(r[i]) ensures r[i] == ' ' {
        if i > |w| {
          assert r[i] == rest[i - |w| - 1];
        }
      }
      forall i | 0 <= i < |r| - 1 ensures !(IsSpace(r[i]) && IsSpace(r[i + 1])) {
        if i > |w| {
          assert r[i] == rest[i - |w| - 1] && r[i + 1] == rest[i - |w|];
        }
      }
    } else if |words| == 1 {
      assert words[0] in words;
    }
  }
}
