/**
 * The post-processing of the NER tagger's output: `extract_entities_bert` keeps the
 * ORG and PER spans the tagger is confident about and stamps them with the source
 * file name; `deduplicate_entities` keeps the first entity per (text, filename).
 * The tagger itself is not modelled: its result list is an input.
 */
module ExtractEntities {
  import opened Text
  import opened Seqs

  /** One element of the tagger's result list. */
  datatype NerResult = NerResult(word: string, entityGroup: string, score: real)

  /** An entity record as the pipeline stores it in its JSON files. */
  datatype Entity = Entity(text: string, entityLabel: string, score: real, filename: string)

  const ScoreThreshold: real := 0.80

  /** RELEVANT_LABELS */
  predicate IsRelevantLabel(l: string) {
    l == "ORG" || l == "PER"
  }

  /** `s.replace("##", "")`: occurrences are removed left to right without overlap. */
  function RemoveHashes(s: string): (r: string)
    ensures |r| <= |s|
    decreases |s|
  {
    if |s| >= 2 && s[0] == '#' && s[1] == '#' then RemoveHashes(s[2..])
    else if s == [] then []
    else [s[0]] + RemoveHashes(s[1..])
  }

  predicate HasDoubleHash(s: string) {
    exists i :: 0 <= i < |s| - 1 && s[i] == '#' && s[i + 1] == '#'
  }

  /** Whether one tagger result yields an entity: its stripped word is not a `##` subword,
      its group is relevant and its score reaches the threshold. */
  predicate Kept(r: NerResult) {
    var t := Strip(r.word);
    !IsPrefix("##", t) && IsRelevantLabel(r.entityGroup) && r.score >= ScoreThreshold
  }

  function ToEntity(r: NerResult, filename: string): Entity {
    Entity(RemoveHashes(Strip(r.word)), r.entityGroup, r.score, filename)
  }

  function KeptFilter(): NerResult -> bool {
    r => Kept(r)
  }

  function Stamp(filename: string): NerResult -> Entity {
    r => ToEntity(r, filename)
  }

  /** The entities one text yields: the kept results, in tagger order, as entities. */
  function NerEntities(results: seq<NerResult>, filename: string): seq<Entity> {
    Map(Filter(results, KeptFilter()), Stamp(filename))
  }

  /** The loop of `extract_entities_bert` over the tagger's results. */
  method ExtractEntitiesBert(results: seq<NerResult>, filename: string) returns (entities: seq<Entity>)
    ensures entities == NerEntities(results, filename)
    ensures |entities| <= |results|
    ensures forall e :: e in entities ==>
      IsRelevantLabel(e.entityLabel) && e.score >= ScoreThreshold && e.filename == filename && !HasDoubleHash(e.text)
  {
    entities := [];
    var i := 0;
    while i < |results|
      invariant 0 <= i <= |results|
      invariant entities == NerEntities(results[..i], filename)
    {
      var result := results[i];
      var entityText := Strip(result.word);
      NerEntitiesSnoc(results, i, filename);
      if IsPrefix("##", entityText) {
        i := i + 1;
        continue;
      }
      entityText := RemoveHashes(entityText);
      if IsRelevantLabel(result.entityGroup) && result.score >= ScoreThreshold {
        entities := entities + [Entity(entityText, result.entityGroup, result.score, filename)];
      }
      i := i + 1;
    }
    assert results[..i] == results;
    NerEntitiesProperties(results, filename);
  }

  /** One more tagger result adds at most its own entity. */
  lemma NerEntitiesSnoc(results: seq<NerResult>, i: nat, filename: string)
    requires i < |results|
    ensures NerEntities(results[..i + 1], filename)
      == NerEntities(results[..i], filename) + (if Kept(results[i]) then [ToEntity(results[i], filename)] else [])
  {
    var tail := if Kept(results[i]) then [results[i]] else [];
    FilterSnoc(results, i, KeptFilter());
    MapConcat(Filter(results[..i], KeptFilter()), tail, Stamp(filename));
    if Kept(results[i]) {
      assert Map(tail, Stamp(filename)) == [ToEntity(results[i], filename)];
    }
  }

  lemma NerEntitiesProperties(results: seq<NerResult>, filename: string)
    ensures |NerEntities(results, filename)| <= |results|
    ensures forall e :: e in NerEntities(results, filename) ==>
      IsRelevantLabel(e.entityLabel) && e.score >= ScoreThreshold && e.filename == filename && !HasDoubleHash(e.text)
  {
    var kept := Filter(results, KeptFilter());
    forall e | e in NerEntities(results, filename)
      ensures IsRelevantLabel(e.entityLabel) && e.score >= ScoreThreshold && e.filename == filename && !HasDoubleHash(e.text)
    {
      var k :| 0 <= k < |kept| && e == Stamp(filename)(kept[k]);
      assert e == ToEntity(kept[k], filename);
      FilterMembership(results, KeptFilter(), kept[k]);
      assert Kept(kept[k]);
      RemoveHashesHasNoDoubleHash(Strip(kept[k].word));
    }
  }

  /** Each output entity comes from a result of the tagger, kept in tagger order. */
  lemma NerEntitiesFromResults(results: seq<NerResult>, filename: string)
    ensures IsSubsequence(Filter(results, KeptFilter()), results)
    ensures forall r :: r in results && Kept(r) ==> ToEntity(r, filename) in NerEntities(results, filename)
  {
    FilterIsSubsequence(results, KeptFilter());
    forall r | r in results && Kept(r) ensures ToEntity(r, filename) in NerEntities(results, filename) {
      FilterMembership(results, KeptFilter(), r);
      var kept := Filter(results, KeptFilter());
      var k :| 0 <= k < |kept| && kept[k] == r;
      assert NerEntities(results, filename)[k] == Stamp(filename)(r) == ToEntity(r, filename);
    }
  }

  /** What is left after removing "##" never contains "##": a removal cannot make two
      '#' characters adjacent. */
  lemma {:induction false} RemoveHashesHasNoDoubleHash(s: string)
    ensures !HasDoubleHash(RemoveHashes(s))
    ensures s != [] && s[0] != '#' ==> RemoveHashes(s)[0] == s[0]
    decreases |s|
  {
    if |s| >= 2 && s[0] == '#' && s[1] == '#' {
      RemoveHashesHasNoDoubleHash(s[2..]);
    } else if s != [] {
      var rest := RemoveHashes(s[1..]);
      RemoveHashesHasNoDoubleHash(s[1..]);
      assert RemoveHashes(s) == [s[0]] + rest;
      assert s[1..] != [] && s[0] == '#' ==> s[1..][0] == s[1];
    }
  }

  /** The deduplication key `(text, filename)`. */
  function KeyOf(e: Entity): (string, string) {
    (e.text, e.filename)
  }

  function KeySet(es: seq<Entity>): set<(string, string)> {
    set e | e in es :: KeyOf(e)
  }

  /** The first entity per key, in input order. */
  function Deduplicated(es: seq<Entity>): seq<Entity>
    decreases |es|
  {
    if es == [] then []
    else
      var d := Deduplicated(es[..|es| - 1]);
      var last := es[|es| - 1];
      if KeyOf(last) in KeySet(d) then d else d + [last]
  }

  /** `deduplicate_entities` */
  method DeduplicateEntities(entities: seq<Entity>) returns (deduplicated: seq<Entity>)
    ensures deduplicated == Deduplicated(entities)
    ensures forall i, j :: 0 <= i < j < |deduplicated| ==> KeyOf(deduplicated[i]) != KeyOf(deduplicated[j])
    ensures KeySet(deduplicated) == KeySet(entities)
  {
    var seen: set<(string, string)> := {};
    deduplicated := [];
    var i := 0;
    while i < |entities|
      invariant 0 <= i <= |entities|
      invariant deduplicated == Deduplicated(entities[..i])
      invariant seen == KeySet(deduplicated)
    {
      var entity := entities[i];
      assert entities[..i + 1][..i] == entities[..i];
      var key := KeyOf(entity);
      if key !in seen {
        seen := seen + {key};
        deduplicated := deduplicated + [entity];
      }
      i := i + 1;
    }
    assert entities[..i] == entities;
    DeduplicatedProperties(entities);
  }

  lemma DeduplicatedProperties(es: seq<Entity>)
    ensures forall i, j :: 0 <= i < j < |Deduplicated(es)| ==> KeyOf(Deduplicated(es)[i]) != KeyOf(Deduplicated(es)[j])
    ensures KeySet(Deduplicated(es)) == KeySet(es)
    ensures IsSubsequence(Deduplicated(es), es)
  {
    DeduplicatedDistinct(es);
    DeduplicatedKeySet(es);
    DeduplicatedSubsequence(es);
  }

  lemma {:induction false} DeduplicatedDistinct(es: seq<Entity>)
    ensures forall i, j :: 0 <= i < j < |Deduplicated(es)| ==> KeyOf(Deduplicated(es)[i]) != KeyOf(Deduplicated(es)[j])
    decreases |es|
  {
    if es != [] {
      var init := es[..|es| - 1];
      var last := es[|es| - 1];
      var d := Deduplicated(init);
      DeduplicatedDistinct(init);
      if KeyOf(last) !in KeySet(d) {
        var r := d + [last];
        assert Deduplicated(es) == r;
        forall i, j | 0 <= i < j < |r| ensures KeyOf(r[i]) != KeyOf(r[j]) {
          if j == |d| {
            assert r[i] == d[i] && KeyOf(d[i]) in KeySet(d);
          } else {
            assert r[i] == d[i] && r[j] == d[j];
          }
        }
      }
    }
  }

  lemma {:induction false} DeduplicatedKeySet(es: seq<Entity>)
    ensures KeySet(Deduplicated(es)) == KeySet(es)
    decreases |es|
  {
    if es != [] {
      var init := es[..|es| - 1];
      var last := es[|es| - 1];
      DeduplicatedKeySet(init);
      assert es == init + [last];
      assert KeySet(es) == KeySet(init) + {KeyOf(last)};
      assert KeySet(Deduplicated(init) + [last]) == KeySet(Deduplicated(init)) + {KeyOf(last)};
    }
  }

  lemma {:induction false} DeduplicatedSubsequence(es: seq<Entity>)
    ensures IsSubsequence(Deduplicated(es), es)
    decreases |es|
  {
    if es != [] {
      var init := es[..|es| - 1];
      var last := es[|es| - 1];
      DeduplicatedSubsequence(init);
      assert es == init + [last];
      SubsequenceSnoc(Deduplicated(init), init, last);
    }
  }

  /** The first entity with each key is the one kept. */
  lemma {:induction false} DeduplicatedKeepsFirst(es: seq<Entity>, i: nat)
    requires i < |es| && forall j :: 0 <= j < i ==> KeyOf(es[j]) != KeyOf(es[i])
    ensures es[i] in Deduplicated(es)
    decreases |es|
  {
    var init := es[..|es| - 1];
    if i < |es| - 1 {
      DeduplicatedKeepsFirst(init, i);
    } else {
      DeduplicatedProperties(init);
    }
  }

  /** Deduplication is idempotent. */
  lemma DeduplicatedIdempotent(es: seq<Entity>)
    ensures Deduplicated(Deduplicated(es)) == Deduplicated(es)
  {
    DeduplicatedProperties(es);
    DistinctKeysUnchanged(Deduplicated(es));
  }

  lemma {:induction false} DistinctKeysUnchanged(es: seq<Entity>)
    requires forall i, j :: 0 <= i < j < |es| ==> KeyOf(es[i]) != KeyOf(es[j])
    ensures Deduplicated(es) == es
    decreases |es|
  {
    if es != [] {
      var init := es[..|es| - 1];
      DistinctKeysUnchanged(init);
      assert KeyOf(es[|es| - 1]) !in KeySet(init);
      assert init + [es[|es| - 1]] == es;
    }
  }
}
