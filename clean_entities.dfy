/**
 * Entity consolidation: `clean_entities` filters and normalises the NER entities and
 * removes case-insensitive duplicates, keeping the longer of two texts that contain
 * one another; `filter_redundant_entities` then drops every entity whose text is the
 * acronym of another entity's text. Unicode NFC normalisation is a parameter `nfc`.
 */
module CleanEntities {
  import opened Text
  import opened Seqs
  import opened Wrappers
  import opened ExtractEntities

  // ---------------------------------------------------------------------------
  // is_acronym

  /** `"".join([word[0] for word in words if word[0].isupper()])` */
  function InitialsOfWords(words: seq<string>): string
    requires forall i :: 0 <= i < |words| ==> words[i] != []
  {
    if words == [] then ""
    else (if IsUpper(words[0][0]) then [words[0][0]] else []) + InitialsOfWords(words[1..])
  }

  /** `is_acronym(full_form, acronym)` */
  predicate IsAcronym(fullForm: string, acronym: string) {
    InitialsOfWords(Words(fullForm)) == acronym
  }

  /** Reference definition without splitting: the upper-case letters of `s` that start it
      or follow a whitespace character (`afterSpace` says whether the previous one was). */
  function UpperWordStarts(s: string, afterSpace: bool): string
  {
    if s == [] then []
    else (if afterSpace && IsUpper(s[0]) then [s[0]] else []) + UpperWordStarts(s[1..], IsSpace(s[0]))
  }

  /** `is_acronym(f, a)` holds exactly when `a` is the sequence of upper-case letters that
      begin whitespace-separated words of `f`, e.g. "MFA" for "Ministry of Foreign Affairs". */
  lemma {:induction false} AcronymIsUpperWordStarts(s: string, a: string)
    ensures InitialsOfWords(Words(s)) == UpperWordStarts(s, true)
    ensures IsAcronym(s, a) <==> a == UpperWordStarts(s, true)
    decreases |s|
  {
    var t := TrimStart(s);
    SkipLeadingSpaces(s);
    if t != [] {
      var n := WordLength(t);
      InitialsOfFirstWord(s);
      AcronymIsUpperWordStarts(t[n..], a);
      UpperWordStartsOfFirstWord(t);
    }
  }

  /** The first word contributes its initial, if upper-case, ahead of the other words'. */
  lemma InitialsOfFirstWord(s: string)
    requires TrimStart(s) != []
    ensures var t := TrimStart(s);
      InitialsOfWords(Words(s))
      == (if IsUpper(t[0]) then [t[0]] else []) + InitialsOfWords(Words(t[WordLength(t)..]))
  {
    var t := TrimStart(s);
    var n := WordLength(t);
    assert Words(s) == [t[..n]] + Words(t[n..]);
    assert ([t[..n]] + Words(t[n..]))[1..] == Words(t[n..]);
  }

  /** Past its first character, a word contributes nothing to the reference definition. */
  lemma UpperWordStartsOfFirstWord(t: string)
    requires t != [] && !IsSpace(t[0])
    ensures UpperWordStarts(t, true)
      == (if IsUpper(t[0]) then [t[0]] else []) + UpperWordStarts(t[WordLength(t)..], true)
  {
    InsideWord(t[1..]);
    assert t[1..][WordLength(t[1..])..] == t[WordLength(t)..];
    FlagIrrelevantAtSpace(t[WordLength(t)..]);
  }

  lemma {:induction false} SkipLeadingSpaces(s: string)
    ensures UpperWordStarts(s, true) == UpperWordStarts(TrimStart(s), true)
    decreases |s|
  {
    if s != [] && IsSpace(s[0]) {
      SkipLeadingSpaces(s[1..]);
    }
  }

  lemma {:induction false} InsideWord(v: string)
    ensures UpperWordStarts(v, false) == UpperWordStarts(v[WordLength(v)..], false)
    decreases |v|
  {
    if v != [] && !IsSpace(v[0]) {
      InsideWord(v[1..]);
      assert v[1..][WordLength(v[1..])..] == v[WordLength(v)..];
    }
  }

  lemma FlagIrrelevantAtSpace(s: string)
    requires s == [] || IsSpace(s[0])
    ensures UpperWordStarts(s, false) == UpperWordStarts(s, true)
  {
  }

  // ---------------------------------------------------------------------------
  // filter_redundant_entities

  /** The `any(...)` of line 33: some record in `others`, other than `e` itself, has
      initials equal to the text of `e`. */
  predicate IsRedundant(others: seq<Entity>, e: Entity)
  {
    others != [] && ((others[0] != e && IsAcronym(others[0].text, e.text)) || IsRedundant(others[1..], e))
  }

  /** `IsRedundant` is the existential it scans for. */
  lemma {:induction false} IsRedundantExists(others: seq<Entity>, e: Entity)
    ensures IsRedundant(others, e) <==> exists o :: o in others && o != e && IsAcronym(o.text, e.text)
  {
    if others != [] {
      IsRedundantExists(others[1..], e);
      assert others == [others[0]] + others[1..];
    }
  }

  /** The entities of `prefix` that are not the acronym of another entity of `entities`,
      in order: what the filter of lines 30-37 has kept after visiting `prefix`. */
  function NonRedundant(entities: seq<Entity>, prefix: seq<Entity>): seq<Entity>
    decreases |prefix|
  {
    if prefix == [] then []
    else
      var e := prefix[|prefix| - 1];
      NonRedundant(entities, prefix[..|prefix| - 1]) + (if IsRedundant(entities, e) then [] else [e])
  }

  /** The texts of the entities of `prefix` that are the acronym of another entity of
      `entities`: what the set of line 29 holds after visiting `prefix`. */
  function RedundantTexts(entities: seq<Entity>, prefix: seq<Entity>): set<string>
    decreases |prefix|
  {
    if prefix == [] then {}
    else
      var e := prefix[|prefix| - 1];
      RedundantTexts(entities, prefix[..|prefix| - 1]) + (if IsRedundant(entities, e) then {e.text} else {})
  }

  /** `filter_redundant_entities(entities)`: the entities kept, in order, and the texts
      recognised as acronyms of other entities. */
  method FilterRedundantEntities(entities: seq<Entity>) returns (filtered: seq<Entity>, acronyms: set<string>)
    ensures filtered == NonRedundant(entities, entities)
    ensures acronyms == RedundantTexts(entities, entities)
    ensures forall e :: e in entities && IsRedundant(entities, e) ==> e.text in acronyms
    ensures forall a :: a in acronyms ==> exists e :: e in entities && e.text == a && IsRedundant(entities, e)
  {
    filtered := [];
    acronyms := {};
    for i := 0 to |entities|
      invariant filtered == NonRedundant(entities, entities[..i])
      invariant acronyms == RedundantTexts(entities, entities[..i])
    {
      var entity := entities[i];
      assert entities[..i + 1][..i] == entities[..i];
      if IsRedundant(entities, entity) {
        acronyms := acronyms + {entity.text};
      } else {
        filtered := filtered + [entity];
      }
    }
    assert entities[..|entities|] == entities;
    RedundantTextsSpec(entities, entities);
  }

  /** The set holds exactly the texts of the visited entities that are acronyms of others. */
  lemma {:induction false} RedundantTextsSpec(entities: seq<Entity>, prefix: seq<Entity>)
    ensures forall e :: e in prefix && IsRedundant(entities, e) ==> e.text in RedundantTexts(entities, prefix)
    ensures forall a :: a in RedundantTexts(entities, prefix) ==>
      exists e :: e in prefix && e.text == a && IsRedundant(entities, e)
    decreases |prefix|
  {
    if prefix != [] {
      var init, last := prefix[..|prefix| - 1], prefix[|prefix| - 1];
      RedundantTextsSpec(entities, init);
      assert prefix == init + [last];
      assert forall e :: e in prefix <==> e in init || e == last;
    }
  }

  /** The kept entities are exactly the input entities that are not the acronym of another
      entity, in their input order. */
  lemma {:induction false} NonRedundantKeeps(entities: seq<Entity>, prefix: seq<Entity>, e: Entity)
    ensures IsSubsequence(NonRedundant(entities, prefix), prefix)
    ensures e in NonRedundant(entities, prefix) <==> e in prefix && !IsRedundant(entities, e)
    decreases |prefix|
  {
    if prefix != [] {
      var init := prefix[..|prefix| - 1];
      var last := prefix[|prefix| - 1];
      NonRedundantKeeps(entities, init, e);
      assert prefix == init + [last];
      if IsRedundant(entities, last) {
        assert NonRedundant(entities, prefix) == NonRedundant(entities, init);
        SubsequenceSnoc(NonRedundant(entities, init), init, last);
      } else {
        SubsequenceSnoc(NonRedundant(entities, init), init, last);
      }
    }
  }

  // ---------------------------------------------------------------------------
  // clean_entities

  /** `unicodedata.normalize("NFC", text).strip()` */
  function Normalized(nfc: string -> string, text: string): string {
    Strip(nfc(text))
  }

  /** What is assumed of the normaliser: normalising an already normalised, stripped text
      gives it back (NFC is idempotent and stripping keeps a string normalised). */
  ghost predicate StableNormalizer(nfc: string -> string) {
    forall text {:trigger nfc(Normalized(nfc, text))} :: nfc(Normalized(nfc, text)) == Normalized(nfc, text)
  }

  /** The key of an entity: its normalised text, lower-cased (lines 73 and 78). */
  function ExistingKey(nfc: string -> string, e: Entity): string {
    Lower(Normalized(nfc, e.text))
  }

  /** `key in existing_text or existing_text in key` */
  predicate Conflicts(key: string, existingKey: string) {
    IsSubstring(key, existingKey) || IsSubstring(existingKey, key)
  }

  /** The entities whose key contains, or is contained in, `key`. */
  function ConflictsWith(nfc: string -> string, key: string): Entity -> bool {
    (x: Entity) => Conflicts(key, ExistingKey(nfc, x))
  }

  /** The accepted entity the `for ... break` of lines 77-87 stops at: the first whose key
      conflicts with `key`, or None when none does. */
  function FirstConflict(nfc: string -> string, cleaned: seq<Entity>, key: string): (r: Option<nat>)
    ensures r.Some? ==> r.value < |cleaned| && Conflicts(key, ExistingKey(nfc, cleaned[r.value]))
    ensures r.Some? ==> forall j :: 0 <= j < r.value ==> !Conflicts(key, ExistingKey(nfc, cleaned[j]))
    ensures r.None? ==> forall j :: 0 <= j < |cleaned| ==> !Conflicts(key, ExistingKey(nfc, cleaned[j]))
  {
    FirstIndex(cleaned, ConflictsWith(nfc, key), 0)
  }

  /** The set `seen` stands for: the lower-cased texts of the accepted entities. */
  function LowerTexts(cleaned: seq<Entity>): set<string> {
    set e | e in cleaned :: Lower(e.text)
  }

  /** The record as accepted: its text overwritten with the normalised text (line 91). */
  function Accepted(nfc: string -> string, e: Entity): Entity {
    e.(text := Normalized(nfc, e.text))
  }

  /** Lines 76-87 on the accepted list: the list after the partial-duplicate check, and
      whether the new entity is to be added (`should_add`). */
  function Resolve(nfc: string -> string, cleaned: seq<Entity>, key: string): (seq<Entity>, bool)
  {
    match FirstConflict(nfc, cleaned, key)
    case None => (cleaned, true)
    case Some(i) =>
      if |key| > |ExistingKey(nfc, cleaned[i])| then (RemoveFirst(cleaned, cleaned[i]), true)
      else (cleaned, false)
  }

  /** One iteration of the loop of `clean_entities` on the list accepted so far. */
  function CleanStep(nfc: string -> string, threshold: real, cleaned: seq<Entity>, e: Entity): seq<Entity> {
    if e.score < threshold then cleaned
    else
      var t := Normalized(nfc, e.text);
      if |t| < 2 then cleaned
      else if e.entityLabel == "PER" && ' ' !in t then cleaned
      else
        var key := Lower(t);
        if key in LowerTexts(cleaned) then cleaned
        else
          var (kept, add) := Resolve(nfc, cleaned, key);
          if add then kept + [Accepted(nfc, e)] else kept
  }

  /** `clean_entities(entities, score_threshold)` as a fold over the input. */
  function Cleaned(nfc: string -> string, threshold: real, entities: seq<Entity>): seq<Entity>
    decreases |entities|
  {
    if entities == [] then []
    else CleanStep(nfc, threshold, Cleaned(nfc, threshold, entities[..|entities| - 1]), entities[|entities| - 1])
  }

  /** What every entity `clean_entities` returns satisfies: it passed the score threshold,
      its text is normalised, trimmed and at least two characters long, a PER text contains a
      space, and it is an input record whose text was replaced by its normalised form. */
  ghost predicate GoodEntry(nfc: string -> string, threshold: real, entities: seq<Entity>, e: Entity) {
    && e.score >= threshold
    && |e.text| >= 2
    && (e.entityLabel == "PER" ==> ' ' in e.text)
    && IsNormalizedText(nfc, e.text)
    && exists o :: o in entities && e == Accepted(nfc, o)
  }

  /** A text NFC leaves unchanged and with no whitespace at either end. */
  predicate IsNormalizedText(nfc: string -> string, t: string) {
    nfc(t) == t && (t != [] ==> !IsSpace(t[0]) && !IsSpace(t[|t| - 1]))
  }

  /** No two entities have the same lower-cased text. */
  predicate DistinctLowerTexts(cleaned: seq<Entity>) {
    forall i, j {:trigger Lower(cleaned[i].text), Lower(cleaned[j].text)} ::
      0 <= i < j < |cleaned| ==> Lower(cleaned[i].text) != Lower(cleaned[j].text)
  }

  /** Every entity of `cleaned` is a good entry. */
  ghost predicate AllGood(nfc: string -> string, threshold: real, entities: seq<Entity>, cleaned: seq<Entity>) {
    forall e :: e in cleaned ==> GoodEntry(nfc, threshold, entities, e)
  }

  ghost predicate WellCleaned(nfc: string -> string, threshold: real, entities: seq<Entity>, cleaned: seq<Entity>) {
    AllGood(nfc, threshold, entities, cleaned) && DistinctLowerTexts(cleaned)
  }

  /** A normalised text normalises to itself. */
  lemma NormalizedFixed(nfc: string -> string, text: string)
    requires StableNormalizer(nfc)
    ensures IsNormalizedText(nfc, Normalized(nfc, text))
  {
    StripIdempotent(nfc(text));
  }

  /** Every returned entity passed the score threshold, has a normalised, trimmed text of at
      least two characters, contains a space if it is a PER, is an input record with its text
      normalised, and no two returned texts are equal once lower-cased. */
  lemma {:induction false} CleanedIsWellCleaned(nfc: string -> string, threshold: real, entities: seq<Entity>)
    requires StableNormalizer(nfc)
    ensures WellCleaned(nfc, threshold, entities, Cleaned(nfc, threshold, entities))
    decreases |entities|
  {
    if entities != [] {
      var init := entities[..|entities| - 1];
      var e := entities[|entities| - 1];
      var prev := Cleaned(nfc, threshold, init);
      CleanedIsWellCleaned(nfc, threshold, init);
      AllGoodGrows(nfc, threshold, init, entities, prev);
      CleanStepKeepsWellCleaned(nfc, threshold, entities, prev, e);
    }
  }

  lemma AllGoodGrows(nfc: string -> string, threshold: real, init: seq<Entity>, entities: seq<Entity>, cleaned: seq<Entity>)
    requires AllGood(nfc, threshold, init, cleaned)
    requires forall o :: o in init ==> o in entities
    ensures AllGood(nfc, threshold, entities, cleaned)
  {
    forall x | x in cleaned ensures GoodEntry(nfc, threshold, entities, x) {
      assert GoodEntry(nfc, threshold, init, x);
      var o :| o in init && x == Accepted(nfc, o);
      assert o in entities;
    }
  }

  lemma CleanStepKeepsWellCleaned(nfc: string -> string, threshold: real, entities: seq<Entity>, cleaned: seq<Entity>, e: Entity)
    requires StableNormalizer(nfc)
    requires WellCleaned(nfc, threshold, entities, cleaned) && e in entities
    ensures WellCleaned(nfc, threshold, entities, CleanStep(nfc, threshold, cleaned, e))
  {
    CleanStepKeepsAllGood(nfc, threshold, entities, cleaned, e);
    CleanStepKeepsDistinct(nfc, threshold, cleaned, e);
  }

  /** One step keeps only entities already accepted, plus possibly the new record with its
      normalised text, and that one only when it passed every filter. */
  lemma CleanStepMembers(nfc: string -> string, threshold: real, cleaned: seq<Entity>, e: Entity, x: Entity)
    requires x in CleanStep(nfc, threshold, cleaned, e)
    ensures x in cleaned || (x == Accepted(nfc, e) && e.score >= threshold && |x.text| >= 2 && (x.entityLabel == "PER" ==> ' ' in x.text))
  {
    var t := Normalized(nfc, e.text);
    var key := Lower(t);
    if e.score >= threshold && |t| >= 2 && !(e.entityLabel == "PER" && ' ' !in t) && key !in LowerTexts(cleaned) {
      var (kept, add) := Resolve(nfc, cleaned, key);
      if x in kept {
        ResolveKeeps(nfc, cleaned, key, x);
      }
    }
  }

  /** The partial-duplicate check only ever removes entities. */
  lemma ResolveKeeps(nfc: string -> string, cleaned: seq<Entity>, key: string, x: Entity)
    requires x in Resolve(nfc, cleaned, key).0
    ensures x in cleaned
  {
    match FirstConflict(nfc, cleaned, key)
    case None =>
    case Some(i) =>
      if |key| > |ExistingKey(nfc, cleaned[i])| {
        RemoveFirstMembers(cleaned, cleaned[i], x);
      }
  }

  lemma CleanStepKeepsAllGood(nfc: string -> string, threshold: real, entities: seq<Entity>, cleaned: seq<Entity>, e: Entity)
    requires StableNormalizer(nfc)
    requires AllGood(nfc, threshold, entities, cleaned) && DistinctLowerTexts(cleaned) && e in entities
    ensures AllGood(nfc, threshold, entities, CleanStep(nfc, threshold, cleaned, e))
  {
    forall x | x in CleanStep(nfc, threshold, cleaned, e) ensures GoodEntry(nfc, threshold, entities, x) {
      CleanStepMembers(nfc, threshold, cleaned, e, x);
      if x !in cleaned {
        NormalizedFixed(nfc, e.text);
      }
    }
  }

  lemma CleanStepKeepsDistinct(nfc: string -> string, threshold: real, cleaned: seq<Entity>, e: Entity)
    requires DistinctLowerTexts(cleaned)
    ensures DistinctLowerTexts(CleanStep(nfc, threshold, cleaned, e))
  {
    var t := Normalized(nfc, e.text);
    var key := Lower(t);
    var a := Accepted(nfc, e);
    if e.score >= threshold && |t| >= 2 && !(e.entityLabel == "PER" && ' ' !in t) && key !in LowerTexts(cleaned) {
      match FirstConflict(nfc, cleaned, key)
      case None =>
        AppendKeepsDistinct(cleaned, a);
      case Some(i) =>
        if |key| > |ExistingKey(nfc, cleaned[i])| {
          RemoveKeepsDistinct(cleaned, i);
          RemoveFromLowerTexts(cleaned, i);
          AppendKeepsDistinct(RemoveFirst(cleaned, cleaned[i]), a);
        }
    }
  }

  lemma AppendKeepsDistinct(cleaned: seq<Entity>, a: Entity)
    requires DistinctLowerTexts(cleaned)
    requires Lower(a.text) !in LowerTexts(cleaned)
    ensures DistinctLowerTexts(cleaned + [a])
  {
    var r := cleaned + [a];
    forall i, j | 0 <= i < j < |r| ensures Lower(r[i].text) != Lower(r[j].text) {
      assert r[i] == cleaned[i];
      if j < |cleaned| { assert r[j] == cleaned[j]; } else { assert cleaned[i] in cleaned; }
    }
  }

  /** In a list with distinct lower-cased texts, `list.remove` of the entity at `j` removes
      exactly that position. */
  lemma RemoveAtDistinct(cleaned: seq<Entity>, j: nat)
    requires DistinctLowerTexts(cleaned) && j < |cleaned|
    ensures RemoveFirst(cleaned, cleaned[j]) == cleaned[..j] + cleaned[j + 1..]
  {
    var k := IndexOf(cleaned, cleaned[j]);
    var first, other := Lower(cleaned[k].text), Lower(cleaned[j].text);
    assert k == j;
  }

  /** Removing the entity at `j` keeps the lower-cased texts distinct. */
  lemma RemoveKeepsDistinct(cleaned: seq<Entity>, j: nat)
    requires DistinctLowerTexts(cleaned) && j < |cleaned|
    ensures DistinctLowerTexts(RemoveFirst(cleaned, cleaned[j]))
  {
    RemoveAtDistinct(cleaned, j);
    var rest := cleaned[..j] + cleaned[j + 1..];
    forall p, q | 0 <= p < q < |rest| ensures Lower(rest[p].text) != Lower(rest[q].text) {
      var p' := if p < j then p else p + 1;
      var q' := if q < j then q else q + 1;
      assert rest[p] == cleaned[p'] && rest[q] == cleaned[q'];
    }
  }

  /** Removing an entity whose lower-cased text is unique takes exactly that text out of
      the set `seen` stands for. */
  lemma RemoveFromLowerTexts(cleaned: seq<Entity>, j: nat)
    requires DistinctLowerTexts(cleaned) && j < |cleaned|
    ensures LowerTexts(RemoveFirst(cleaned, cleaned[j])) == LowerTexts(cleaned) - {Lower(cleaned[j].text)}
  {
    RemoveAtDistinct(cleaned, j);
    var rest := cleaned[..j] + cleaned[j + 1..];
    var gone := Lower(cleaned[j].text);
    forall t | t in LowerTexts(rest) ensures t in LowerTexts(cleaned) && t != gone {
      var x :| x in rest && Lower(x.text) == t;
      var p :| 0 <= p < |rest| && rest[p] == x;
      var p' := if p < j then p else p + 1;
      assert x == cleaned[p'];
    }
    forall t | t in LowerTexts(cleaned) && t != gone ensures t in LowerTexts(rest) {
      var x :| x in cleaned && Lower(x.text) == t;
      var p :| 0 <= p < |cleaned| && cleaned[p] == x;
      assert p != j;
      var p' := if p < j then p else p - 1;
      assert rest[p'] == x;
    }
  }

  /** A normalised text is its own normalisation, so the key line 78 recomputes for an
      accepted entity is its lower-cased text. */
  lemma ExistingKeyOfNormalized(nfc: string -> string, e: Entity)
    requires IsNormalizedText(nfc, e.text)
    ensures ExistingKey(nfc, e) == Lower(e.text)
  {
    assert TrimStart(e.text) == e.text;
    assert TrimEnd(e.text) == e.text;
  }

  /** `clean_entities(entities, score_threshold)`. The accepted list and the set `seen` are
      updated together. */
  method CleanEntities(entities: seq<Entity>, threshold: real, nfc: string -> string) returns (cleaned: seq<Entity>)
    requires StableNormalizer(nfc)
    ensures cleaned == Cleaned(nfc, threshold, entities)
    ensures WellCleaned(nfc, threshold, entities, cleaned)
  {
    cleaned := [];
    var seen: set<string> := {};
    for i := 0 to |entities|
      invariant cleaned == Cleaned(nfc, threshold, entities[..i])
      invariant seen == LowerTexts(cleaned)
    {
      var entity := entities[i];
      CleanedSnoc(nfc, threshold, entities, i);
      CleanedIsWellCleaned(nfc, threshold, entities[..i]);
      WellCleanedParts(nfc, threshold, entities[..i], cleaned);
      if entity.score < threshold {
        continue;
      }
      var normalizedText := Strip(nfc(entity.text));
      if |normalizedText| < 2 {
        continue;
      }
      if entity.entityLabel == "PER" && ' ' !in normalizedText {
        continue;
      }
      var key := Lower(normalizedText);
      if key !in seen {
        var shouldAdd;
        cleaned, seen, shouldAdd := ResolvePartialDuplicates(nfc, cleaned, seen, key);
        if shouldAdd {
          LowerTextsSnoc(cleaned, entity.(text := normalizedText));
          seen := seen + {key};
          cleaned := cleaned + [entity.(text := normalizedText)];
        }
      }
    }
    assert entities[..|entities|] == entities;
    CleanedIsWellCleaned(nfc, threshold, entities);
  }

  lemma LowerTextsSnoc(cleaned: seq<Entity>, x: Entity)
    ensures LowerTexts(cleaned + [x]) == LowerTexts(cleaned) + {Lower(x.text)}
  {
    assert forall y :: y in cleaned + [x] <==> y in cleaned || y == x;
  }

  lemma CleanedSnoc(nfc: string -> string, threshold: real, entities: seq<Entity>, i: nat)
    requires i < |entities|
    ensures Cleaned(nfc, threshold, entities[..i + 1]) == CleanStep(nfc, threshold, Cleaned(nfc, threshold, entities[..i]), entities[i])
  {
    assert entities[..i + 1][..i] == entities[..i];
  }

  lemma WellCleanedParts(nfc: string -> string, threshold: real, entities: seq<Entity>, cleaned: seq<Entity>)
    requires WellCleaned(nfc, threshold, entities, cleaned)
    ensures forall x :: x in cleaned ==> IsNormalizedText(nfc, x.text)
    ensures DistinctLowerTexts(cleaned)
  {
    forall x | x in cleaned ensures IsNormalizedText(nfc, x.text) {
      assert GoodEntry(nfc, threshold, entities, x);
    }
  }

  /** The inner loop of lines 76-87: the first accepted entity whose key contains, or is
      contained in, `key` is replaced when `key` is strictly longer and otherwise blocks the
      new entity; the `seen.remove` of line 84 always finds its key. */
  method ResolvePartialDuplicates(nfc: string -> string, cleaned: seq<Entity>, seen: set<string>, key: string)
    returns (kept: seq<Entity>, seenAfter: set<string>, shouldAdd: bool)
    requires forall x :: x in cleaned ==> IsNormalizedText(nfc, x.text)
    requires DistinctLowerTexts(cleaned) && seen == LowerTexts(cleaned)
    ensures (kept, shouldAdd) == Resolve(nfc, cleaned, key)
    ensures seenAfter == LowerTexts(kept)
  {
    kept, seenAfter, shouldAdd := cleaned, seen, true;
    var j := 0;
    while j < |cleaned|
      invariant 0 <= j <= |cleaned|
      invariant NoConflictBefore(nfc, cleaned, key, j)
    {
      var existingText := ExistingKey(nfc, cleaned[j]);
      if Conflicts(key, existingText) {
        FirstConflictAt(nfc, cleaned, key, j);
        ResolveAt(nfc, cleaned, key, j);
        if |key| > |existingText| {
          kept := RemoveFirst(cleaned, cleaned[j]);
          seenAfter := seen - {existingText};
        } else {
          shouldAdd := false;
        }
        return;
      }
      NoConflictExtend(nfc, cleaned, key, j);
      j := j + 1;
    }
    NoConflictAtAll(nfc, cleaned, key);
  }

  /** No entity before index `j` conflicts with `key`. */
  predicate NoConflictBefore(nfc: string -> string, cleaned: seq<Entity>, key: string, j: nat)
    requires j <= |cleaned|
  {
    forall k :: 0 <= k < j ==> !Conflicts(key, ExistingKey(nfc, cleaned[k]))
  }

  lemma NoConflictExtend(nfc: string -> string, cleaned: seq<Entity>, key: string, j: nat)
    requires j < |cleaned| && NoConflictBefore(nfc, cleaned, key, j)
    requires !Conflicts(key, ExistingKey(nfc, cleaned[j]))
    ensures NoConflictBefore(nfc, cleaned, key, j + 1)
  {
  }

  /** At the first conflict the loop is decided: a shorter accepted entity is removed, and
      with it exactly its key from `seen`; otherwise the new entity is not added. */
  lemma ResolveAt(nfc: string -> string, cleaned: seq<Entity>, key: string, j: nat)
    requires forall x :: x in cleaned ==> IsNormalizedText(nfc, x.text)
    requires DistinctLowerTexts(cleaned) && j < |cleaned|
    requires FirstConflict(nfc, cleaned, key) == Some(j)
    ensures Resolve(nfc, cleaned, key) ==
      if |key| > |ExistingKey(nfc, cleaned[j])| then (RemoveFirst(cleaned, cleaned[j]), true) else (cleaned, false)
    ensures LowerTexts(RemoveFirst(cleaned, cleaned[j])) == LowerTexts(cleaned) - {ExistingKey(nfc, cleaned[j])}
  {
    assert cleaned[j] in cleaned;
    ExistingKeyOfNormalized(nfc, cleaned[j]);
    RemoveFromLowerTexts(cleaned, j);
  }

  // ---------------------------------------------------------------------------
  // The loop stops at the first conflict

  /** An already clean entity: score above the threshold, a normalised text of at least two
      characters, and not a PER. */
  predicate AlreadyClean(nfc: string -> string, threshold: real, e: Entity) {
    e.score >= threshold && IsNormalizedText(nfc, e.text) && |e.text| >= 2 && e.entityLabel != "PER"
  }

  /** As written, the inner loop handles only the first conflicting entity. With `x`, `y`
      and `z` in that order, where neither of `x`, `y` contains the other and `z` is a
      longer text containing, or contained in, both (e.g. "united", "nations",
      "united nations"), `z` replaces `x` but `y` stays: the result keeps a shorter partial
      duplicate of a longer entity. */
  lemma FirstConflictOnly(nfc: string -> string, threshold: real, x: Entity, y: Entity, z: Entity)
    requires AlreadyClean(nfc, threshold, x) && AlreadyClean(nfc, threshold, y) && AlreadyClean(nfc, threshold, z)
    requires !Conflicts(Lower(y.text), Lower(x.text))
    requires Conflicts(Lower(z.text), Lower(x.text)) && Conflicts(Lower(z.text), Lower(y.text))
    requires |z.text| > |x.text| && |z.text| > |y.text|
    ensures Cleaned(nfc, threshold, [x, y, z]) == [y, z]
    ensures Conflicts(Lower(y.text), Lower(z.text))
  {
    var xyz := [x, y, z];
    assert xyz[..2] == [x, y] && xyz[..3] == xyz;
    FirstTwoKept(nfc, threshold, x, y);
    CleanedSnoc(nfc, threshold, xyz, 2);
    ThirdReplacesFirst(nfc, threshold, x, y, z);
  }

  lemma FirstTwoKept(nfc: string -> string, threshold: real, x: Entity, y: Entity)
    requires AlreadyClean(nfc, threshold, x) && AlreadyClean(nfc, threshold, y)
    requires !Conflicts(Lower(y.text), Lower(x.text))
    ensures Cleaned(nfc, threshold, [x, y]) == [x, y]
  {
    assert [x, y][..1] == [x] && [x, y][..2] == [x, y];
    FirstKept(nfc, threshold, x);
    CleanedSnoc(nfc, threshold, [x, y], 1);
    LowerTextsSnoc([], x);
    ConflictsWithItself(Lower(x.text));
    AcceptedIdentity(nfc, x);
    AcceptedIdentity(nfc, y);
    NoConflictAtAll(nfc, [x], Lower(y.text));
    AlreadyCleanPasses(nfc, threshold, y);
    StepAppends(nfc, threshold, [x], y);
  }

  lemma FirstKept(nfc: string -> string, threshold: real, x: Entity)
    requires AlreadyClean(nfc, threshold, x)
    ensures Cleaned(nfc, threshold, [x]) == [x]
  {
    assert [x][..0] == [] && [x][..1] == [x];
    CleanedSnoc(nfc, threshold, [x], 0);
    NoConflictAtAll(nfc, [], Lower(x.text));
    AcceptedIdentity(nfc, x);
    AlreadyCleanPasses(nfc, threshold, x);
    StepAppends(nfc, threshold, [], x);
  }

  lemma ThirdReplacesFirst(nfc: string -> string, threshold: real, x: Entity, y: Entity, z: Entity)
    requires AlreadyClean(nfc, threshold, x) && AlreadyClean(nfc, threshold, z)
    requires Conflicts(Lower(z.text), Lower(x.text))
    requires |z.text| > |x.text| && |z.text| > |y.text|
    ensures CleanStep(nfc, threshold, [x, y], z) == [y, z]
  {
    ThirdStep(nfc, threshold, x, y, z);
    RemoveFirstPair(x, y, z);
  }

  lemma ThirdStep(nfc: string -> string, threshold: real, x: Entity, y: Entity, z: Entity)
    requires AlreadyClean(nfc, threshold, x) && AlreadyClean(nfc, threshold, z)
    requires Conflicts(Lower(z.text), Lower(x.text))
    requires |z.text| > |x.text| && |z.text| > |y.text|
    ensures CleanStep(nfc, threshold, [x, y], z) == RemoveFirst([x, y], x) + [z]
  {
    ThirdConflictsFirst(nfc, threshold, x, y, z);
    StepReplacesHead(nfc, threshold, x, y, z);
  }

  /** The third text is new and its first conflict is with the first entity. */
  lemma ThirdConflictsFirst(nfc: string -> string, threshold: real, x: Entity, y: Entity, z: Entity)
    requires AlreadyClean(nfc, threshold, x)
    requires Conflicts(Lower(z.text), Lower(x.text))
    requires |z.text| > |x.text| && |z.text| > |y.text|
    ensures Lower(z.text) !in LowerTexts([x, y])
    ensures FirstConflict(nfc, [x, y], Lower(z.text)) == Some(0)
  {
    LowerTextsPair(x, y);
    assert |Lower(z.text)| > |Lower(x.text)| && |Lower(z.text)| > |Lower(y.text)|;
    AcceptedIdentity(nfc, x);
    assert [x, y][0] == x;
    FirstConflictAt(nfc, [x, y], Lower(z.text), 0);
  }

  lemma RemoveFirstPair<T>(x: T, y: T, z: T)
    ensures RemoveFirst([x, y], x) + [z] == [y, z]
  {
    RemoveFirstHead([x, y]);
    assert [x, y][1..] == [y];
  }

  lemma LowerTextsPair(x: Entity, y: Entity)
    ensures LowerTexts([x, y]) == {Lower(x.text), Lower(y.text)}
  {
    LowerTextsSnoc([], x);
    LowerTextsSnoc([x], y);
    assert [] + [x] == [x] && [x] + [y] == [x, y];
  }

  lemma StepReplacesHead(nfc: string -> string, threshold: real, x: Entity, y: Entity, z: Entity)
    requires AlreadyClean(nfc, threshold, x) && AlreadyClean(nfc, threshold, z)
    requires |z.text| > |x.text|
    requires Lower(z.text) !in LowerTexts([x, y])
    requires FirstConflict(nfc, [x, y], Lower(z.text)) == Some(0)
    ensures CleanStep(nfc, threshold, [x, y], z) == RemoveFirst([x, y], x) + [z]
  {
    AcceptedIdentity(nfc, x);
    AcceptedIdentity(nfc, z);
    AlreadyCleanPasses(nfc, threshold, z);
    StepReplaces(nfc, threshold, [x, y], z, 0);
  }

  /** An already clean entity passes the filters. */
  lemma AlreadyCleanPasses(nfc: string -> string, threshold: real, e: Entity)
    requires AlreadyClean(nfc, threshold, e)
    ensures PassesFilters(nfc, threshold, e)
  {
    AcceptedIdentity(nfc, e);
  }

  /** Every key contains itself. */
  lemma ConflictsWithItself(key: string)
    ensures Conflicts(key, key)
  {
    assert OccursAt(key, key, 0);
  }

  /** A record whose text is already normalised is accepted unchanged. */
  lemma AcceptedIdentity(nfc: string -> string, e: Entity)
    requires IsNormalizedText(nfc, e.text)
    ensures Normalized(nfc, e.text) == e.text && Accepted(nfc, e) == e
    ensures ExistingKey(nfc, e) == Lower(e.text)
  {
    ExistingKeyOfNormalized(nfc, e);
  }

  /** A candidate that gets past the score, length and single-word PER filters of lines
      55-70 (its text as normalised and stripped). */
  predicate PassesFilters(nfc: string -> string, threshold: real, e: Entity) {
    var t := Normalized(nfc, e.text);
    e.score >= threshold && |t| >= 2 && (e.entityLabel == "PER" ==> ' ' in t)
  }

  /** A candidate that fails a filter, or whose key is already in `seen`, leaves the
      accepted list as it was. */
  lemma StepRejects(nfc: string -> string, threshold: real, cleaned: seq<Entity>, e: Entity)
    requires !PassesFilters(nfc, threshold, e) || ExistingKey(nfc, e) in LowerTexts(cleaned)
    ensures CleanStep(nfc, threshold, cleaned, e) == cleaned
  {
  }

  /** A new candidate that passes the filters and conflicts with no accepted entity is
      appended, its text replaced by the normalised text. */
  lemma StepAppends(nfc: string -> string, threshold: real, cleaned: seq<Entity>, e: Entity)
    requires PassesFilters(nfc, threshold, e) && ExistingKey(nfc, e) !in LowerTexts(cleaned)
    requires FirstConflict(nfc, cleaned, ExistingKey(nfc, e)).None?
    ensures CleanStep(nfc, threshold, cleaned, e) == cleaned + [Accepted(nfc, e)]
  {
  }

  /** A new candidate that passes the filters and is strictly longer than the first
      accepted entity it conflicts with replaces that entity: the entity is removed and the
      candidate appended. */
  lemma StepReplaces(nfc: string -> string, threshold: real, cleaned: seq<Entity>, e: Entity, i: nat)
    requires PassesFilters(nfc, threshold, e) && ExistingKey(nfc, e) !in LowerTexts(cleaned)
    requires FirstConflict(nfc, cleaned, ExistingKey(nfc, e)) == Some(i)
    requires |ExistingKey(nfc, e)| > |ExistingKey(nfc, cleaned[i])|
    ensures CleanStep(nfc, threshold, cleaned, e) == RemoveFirst(cleaned, cleaned[i]) + [Accepted(nfc, e)]
  {
  }

  /** A new candidate that passes the filters but is no longer than the first accepted
      entity it conflicts with is discarded: on equal length the earlier entity wins. */
  lemma StepDiscards(nfc: string -> string, threshold: real, cleaned: seq<Entity>, e: Entity, i: nat)
    requires PassesFilters(nfc, threshold, e) && ExistingKey(nfc, e) !in LowerTexts(cleaned)
    requires FirstConflict(nfc, cleaned, ExistingKey(nfc, e)) == Some(i)
    requires |ExistingKey(nfc, e)| <= |ExistingKey(nfc, cleaned[i])|
    ensures CleanStep(nfc, threshold, cleaned, e) == cleaned
  {
  }

  // ---------------------------------------------------------------------------
  // Replacing every shorter partial duplicate

  /** The entities whose key neither contains nor is contained in `key`. */
  function NoConflictWith(nfc: string -> string, key: string): Entity -> bool {
    x => !Conflicts(key, ExistingKey(nfc, x))
  }

  /** Some accepted entity at least as long as `key` contains it or is contained in it. */
  predicate Blocked(nfc: string -> string, cleaned: seq<Entity>, key: string) {
    exists k :: 0 <= k < |cleaned| && Conflicts(key, ExistingKey(nfc, cleaned[k])) && |ExistingKey(nfc, cleaned[k])| >= |key|
  }

  /** One iteration with the partial-duplicate check applied to every accepted entity: the
      new entity is dropped when a conflicting accepted one is at least as long, and
      otherwise replaces all the conflicting ones. */
  function CleanStepAll(nfc: string -> string, threshold: real, cleaned: seq<Entity>, e: Entity): seq<Entity> {
    if e.score < threshold then cleaned
    else
      var t := Normalized(nfc, e.text);
      if |t| < 2 then cleaned
      else if e.entityLabel == "PER" && ' ' !in t then cleaned
      else
        var key := Lower(t);
        if Blocked(nfc, cleaned, key) then cleaned
        else Filter(cleaned, NoConflictWith(nfc, key)) + [Accepted(nfc, e)]
  }

  function CleanedAll(nfc: string -> string, threshold: real, entities: seq<Entity>): seq<Entity>
    decreases |entities|
  {
    if entities == [] then []
    else CleanStepAll(nfc, threshold, CleanedAll(nfc, threshold, entities[..|entities| - 1]), entities[|entities| - 1])
  }

  function NoConflictPair(nfc: string -> string): (Entity, Entity) -> bool {
    (a, b) => !Conflicts(ExistingKey(nfc, a), ExistingKey(nfc, b))
  }

  /** No returned key contains another. */
  ghost predicate ConflictFree(nfc: string -> string, cleaned: seq<Entity>) {
    forall i, j :: 0 <= i < j < |cleaned| ==> NoConflictPair(nfc)(cleaned[i], cleaned[j])
  }

  /** With every partial duplicate handled, no returned key contains another one (so, in
      particular, no two are equal). */
  lemma {:induction false} CleanedAllConflictFree(nfc: string -> string, threshold: real, entities: seq<Entity>)
    requires StableNormalizer(nfc)
    ensures ConflictFree(nfc, CleanedAll(nfc, threshold, entities))
    decreases |entities|
  {
    if entities != [] {
      var prev := CleanedAll(nfc, threshold, entities[..|entities| - 1]);
      var e := entities[|entities| - 1];
      CleanedAllConflictFree(nfc, threshold, entities[..|entities| - 1]);
      CleanStepAllConflictFree(nfc, threshold, prev, e);
    }
  }

  lemma CleanStepAllConflictFree(nfc: string -> string, threshold: real, cleaned: seq<Entity>, e: Entity)
    requires StableNormalizer(nfc) && ConflictFree(nfc, cleaned)
    ensures ConflictFree(nfc, CleanStepAll(nfc, threshold, cleaned, e))
  {
    var t := Normalized(nfc, e.text);
    var key := Lower(t);
    if e.score >= threshold && |t| >= 2 && !(e.entityLabel == "PER" && ' ' !in t) && !Blocked(nfc, cleaned, key) {
      var p := NoConflictWith(nfc, key);
      var kept := Filter(cleaned, p);
      var a := Accepted(nfc, e);
      NormalizedFixed(nfc, e.text);
      ExistingKeyOfNormalized(nfc, a);
      FilterPairwise(cleaned, p, NoConflictPair(nfc));
      var r := kept + [a];
      forall i, j | 0 <= i < j < |r| ensures NoConflictPair(nfc)(r[i], r[j]) {
        assert r[i] == kept[i];
        if j == |kept| {
          FilterMembership(cleaned, p, kept[i]);
        } else {
          assert r[j] == kept[j];
        }
      }
    }
  }

  lemma FirstConflictAt(nfc: string -> string, cleaned: seq<Entity>, key: string, j: nat)
    requires j < |cleaned| && Conflicts(key, ExistingKey(nfc, cleaned[j]))
    requires forall k :: 0 <= k < j ==> !Conflicts(key, ExistingKey(nfc, cleaned[k]))
    ensures FirstConflict(nfc, cleaned, key) == Some(j)
  {
    var r := FirstConflict(nfc, cleaned, key);
  }

  lemma NoConflictAtAll(nfc: string -> string, cleaned: seq<Entity>, key: string)
    requires forall k :: 0 <= k < |cleaned| ==> !Conflicts(key, ExistingKey(nfc, cleaned[k]))
    ensures FirstConflict(nfc, cleaned, key) == None
  {
    var r := FirstConflict(nfc, cleaned, key);
  }
}
