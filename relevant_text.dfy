/**
 * Choosing the text a relationship is extracted from, shared by the API and the local
 * extraction scripts: a sentence mentions an entity when the entity's text, escaped,
 * occurs between two `\b` word boundaries, ignoring case; `extract_relevant_sentences`
 * keeps the sentences mentioning both entities, or else those mentioning either one;
 * and the unordered pairs of an entity list that the scripts run extraction on.
 * Sentence splitting (`sent_tokenize`) is not modelled: the sentence list is an input.
 */
module RelevantText {
  import opened Text
  import opened Seqs

  /** `s[k]` exists and is a `\w` character. */
  predicate WordAt(s: string, k: int) {
    0 <= k < |s| && IsWordChar(s[k])
  }

  /** `\b` matches at position `p`: a word character on exactly one side of it. */
  predicate Boundary(s: string, p: int) {
    WordAt(s, p - 1) != WordAt(s, p)
  }

  /** `\b<escaped entity>\b` matches `s` at index `i`, under `re.IGNORECASE`. */
  predicate MatchAt(s: string, entity: string, i: nat) {
    i + |entity| <= |s| && Boundary(s, i) && Lower(s[i..i + |entity|]) == Lower(entity)
    && Boundary(s, i + |entity|)
  }

  /** Some match starts at index `i` or later. */
  predicate MentionsFrom(s: string, entity: string, i: nat)
    decreases |s| - i
  {
    i + |entity| <= |s| && (MatchAt(s, entity, i) || MentionsFrom(s, entity, i + 1))
  }

  /** `re.search(rf"\b{re.escape(entity)}\b", s, re.IGNORECASE)` finds a match. */
  predicate Mentions(s: string, entity: string) {
    MentionsFrom(s, entity, 0)
  }

  /** The left-to-right search finds a match exactly when one exists. */
  lemma {:induction false} MentionsFromIff(s: string, entity: string, i: nat)
    ensures MentionsFrom(s, entity, i) <==> exists k: nat :: i <= k && MatchAt(s, entity, k)
    decreases |s| - i
  {
    if i + |entity| <= |s| {
      MentionsFromIff(s, entity, i + 1);
      if exists k: nat :: i <= k && MatchAt(s, entity, k) {
        var k: nat :| i <= k && MatchAt(s, entity, k);
        assert k == i || (i + 1 <= k && MatchAt(s, entity, k));
      }
    } else {
      assert forall k: nat :: i <= k ==> !MatchAt(s, entity, k);
    }
  }

  lemma MentionsIff(s: string, entity: string)
    ensures Mentions(s, entity) <==> exists k: nat :: MatchAt(s, entity, k)
  {
    MentionsFromIff(s, entity, 0);
  }

  /** A mentioning sentence holds a word character, so it is not blank. */
  lemma MentionNotBlank(s: string, entity: string)
    requires Mentions(s, entity)
    ensures !AllSpace(s)
  {
    MentionsIff(s, entity);
    var k: nat :| MatchAt(s, entity, k);
    var c := if WordAt(s, k - 1) then k - 1 else k;
    assert IsWordChar(s[c]);
  }

  function Mentioning(entity: string): string -> bool {
    s => Mentions(s, entity)
  }

  function MentioningBoth(entity1: string, entity2: string): string -> bool {
    s => Mentions(s, entity1) && Mentions(s, entity2)
  }

  function MemberOf(xs: seq<string>): string -> bool {
    s => s in xs
  }

  /** `extract_relevant_sentences(text, entity1, entity2)`, given `sent_tokenize(text)`. */
  function ExtractRelevantSentences(sentences: seq<string>, entity1: string, entity2: string): string
  {
    var with1 := Filter(sentences, Mentioning(entity1));
    var with2 := Filter(sentences, Mentioning(entity2));
    var both := Filter(with1, MemberOf(with2));
    if both != [] then Join(" ", both) else Join(" ", with1 + with2)
  }

  /** The membership test against the entity-2 list selects exactly the sentences that
      mention both entities, in their original order. */
  lemma BothMentioned(sentences: seq<string>, entity1: string, entity2: string)
    ensures Filter(Filter(sentences, Mentioning(entity1)), MemberOf(Filter(sentences, Mentioning(entity2))))
         == Filter(sentences, MentioningBoth(entity1, entity2))
  {
    var with2 := Filter(sentences, Mentioning(entity2));
    forall x | x in sentences
      ensures MentioningBoth(entity1, entity2)(x) == (Mentioning(entity1)(x) && MemberOf(with2)(x))
    {
      FilterMembership(sentences, Mentioning(entity2), x);
    }
    FilterCompose(sentences, Mentioning(entity1), MemberOf(with2), MentioningBoth(entity1, entity2));
  }

  /** When a sentence mentions both entities, the text is those sentences, joined by
      spaces in their original order; otherwise it is the entity-1 sentences followed by
      the entity-2 sentences, two lists with no sentence in common. */
  lemma ExtractRelevantSentencesCases(sentences: seq<string>, entity1: string, entity2: string)
    ensures (exists s :: s in sentences && Mentions(s, entity1) && Mentions(s, entity2)) ==>
      ExtractRelevantSentences(sentences, entity1, entity2)
        == Join(" ", Filter(sentences, MentioningBoth(entity1, entity2)))
    ensures (forall s :: s in sentences ==> !(Mentions(s, entity1) && Mentions(s, entity2))) ==>
      && ExtractRelevantSentences(sentences, entity1, entity2)
           == Join(" ", Filter(sentences, Mentioning(entity1)) + Filter(sentences, Mentioning(entity2)))
      && (forall s :: s in Filter(sentences, Mentioning(entity1)) ==> s !in Filter(sentences, Mentioning(entity2)))
  {
    BothMentioned(sentences, entity1, entity2);
    var both := Filter(sentences, MentioningBoth(entity1, entity2));
    forall s ensures s in both <==> s in sentences && Mentions(s, entity1) && Mentions(s, entity2) {
      FilterMembership(sentences, MentioningBoth(entity1, entity2), s);
    }
    forall s ensures s in Filter(sentences, Mentioning(entity1)) <==> s in sentences && Mentions(s, entity1)
      ensures s in Filter(sentences, Mentioning(entity2)) <==> s in sentences && Mentions(s, entity2)
    {
      FilterMembership(sentences, Mentioning(entity1), s);
      FilterMembership(sentences, Mentioning(entity2), s);
    }
    if forall s :: s in sentences ==> !(Mentions(s, entity1) && Mentions(s, entity2)) {
      FilterNone(sentences, MentioningBoth(entity1, entity2));
    }
  }

  /** The text is blank (so the scripts skip the pair) exactly when no sentence mentions
      either entity; it is then empty. */
  lemma ExtractRelevantSentencesBlank(sentences: seq<string>, entity1: string, entity2: string)
    ensures AllSpace(ExtractRelevantSentences(sentences, entity1, entity2))
        <==> forall s :: s in sentences ==> !Mentions(s, entity1) && !Mentions(s, entity2)
    ensures ExtractRelevantSentences(sentences, entity1, entity2) == []
        <==> forall s :: s in sentences ==> !Mentions(s, entity1) && !Mentions(s, entity2)
  {
    var r := ExtractRelevantSentences(sentences, entity1, entity2);
    var with1 := Filter(sentences, Mentioning(entity1));
    var with2 := Filter(sentences, Mentioning(entity2));
    var both := Filter(with1, MemberOf(with2));
    if s :| s in sentences && (Mentions(s, entity1) || Mentions(s, entity2)) {
      var e := if Mentions(s, entity1) then entity1 else entity2;
      FilterMembership(sentences, Mentioning(e), s);
      var parts := if both != [] then both else with1 + with2;
      assert r == Join(" ", parts);
      var t: string;
      if both != [] {
        t := both[0];
        FilterMembership(with1, MemberOf(with2), t);
        FilterMembership(sentences, Mentioning(entity1), t);
        MentionNotBlank(t, entity1);
      } else {
        t := s;
        MentionNotBlank(t, e);
      }
      assert t in parts;
      var i :| 0 <= i < |parts| && parts[i] == t;
      var k :| 0 <= k < |t| && !IsSpace(t[k]);
      JoinNotAllSpace(" ", parts, i, k);
    } else {
      assert with1 == [] by {
        if with1 != [] {
          FilterMembership(sentences, Mentioning(entity1), with1[0]);
        }
      }
      assert with2 == [] by {
        if with2 != [] {
          FilterMembership(sentences, Mentioning(entity2), with2[0]);
        }
      }
      assert both == [];
    }
  }

  /** The pairs `(x, y)` with `y` a later element than `x` in `rest` and different from it. */
  function PairsWith(x: string, rest: seq<string>): (ps: seq<(string, string)>)
    ensures |ps| <= |rest|
  {
    if rest == [] then []
    else (if x != rest[0] then [(x, rest[0])] else []) + PairsWith(x, rest[1..])
  }

  /** `[(e1, e2) for i, e1 in enumerate(l) for e2 in l[i + 1:] if e1 != e2]` */
  function Pairs(l: seq<string>): seq<(string, string)>
  {
    if l == [] then [] else PairsWith(l[0], l[1..]) + Pairs(l[1..])
  }

  lemma {:induction false} PairsWithIff(x: string, rest: seq<string>, p: (string, string))
    ensures p in PairsWith(x, rest) <==> p.0 == x && p.1 in rest && p.1 != x
  {
    if rest != [] {
      PairsWithIff(x, rest[1..], p);
      assert rest == [rest[0]] + rest[1..];
    }
  }

  /** Every pair is two unequal elements of the list, the first at an earlier index. */
  lemma {:induction false} PairsSound(l: seq<string>, p: (string, string))
    requires p in Pairs(l)
    ensures p.0 != p.1
    ensures exists i, j :: 0 <= i < j < |l| && l[i] == p.0 && l[j] == p.1
  {
    PairsWithIff(l[0], l[1..], p);
    if p in PairsWith(l[0], l[1..]) {
      var j :| 0 <= j < |l[1..]| && l[1..][j] == p.1;
      assert l[j + 1] == p.1;
    } else {
      PairsSound(l[1..], p);
      var i, j :| 0 <= i < j < |l[1..]| && l[1..][i] == p.0 && l[1..][j] == p.1;
      assert l[i + 1] == p.0 && l[j + 1] == p.1;
    }
  }

  /** Every two unequal elements, taken in list order, form a pair. */
  lemma {:induction false} PairsComplete(l: seq<string>, i: nat, j: nat)
    requires i < j < |l| && l[i] != l[j]
    ensures (l[i], l[j]) in Pairs(l)
  {
    if i == 0 {
      PairsWithIff(l[0], l[1..], (l[i], l[j]));
      assert l[1..][j - 1] == l[j];
    } else {
      PairsComplete(l[1..], i - 1, j - 1);
    }
  }

  /** At most one pair per two indices. */
  lemma {:induction false} PairsCount(l: seq<string>)
    ensures 2 * |Pairs(l)| <= |l| * (|l| - 1)
  {
    if l != [] {
      PairsCount(l[1..]);
      var n := |l|;
      assert |Pairs(l)| <= (n - 1) + |Pairs(l[1..])|;
      assert (n - 1) * (n - 2) + 2 * (n - 1) == n * (n - 1);
    }
  }
}
