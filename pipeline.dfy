/**
 * The driver both extraction scripts share: the cleaned entities are grouped by source
 * file (a `defaultdict(list)`, so groups keep the order in which files first appear),
 * each file's text is read from the news or the WikiLeaks directory, and every unordered
 * pair of the file's entity texts whose relevant text is not blank becomes a job for the
 * extractor. Reading a file is a parameter that yields nothing when the file is missing;
 * `sent_tokenize` is a parameter too.
 */
module Pipeline {
  import opened Wrappers
  import opened Text
  import opened Seqs
  import opened RelevantText

  /** The two fields of a cleaned entity record the driver reads. */
  datatype EntityRef = EntityRef(filename: string, text: string)

  /** One extraction: the two entity texts and the text given to the extractor. */
  datatype Job = Job(entity1: string, entity2: string, text: string)

  const NewsDir: string := "../processed_data/news_texts"
  const WikileaksDir: string := "../processed_data/wikileaks_texts"

  /** `os.path.join(directory, name)`: an absolute name replaces the directory. */
  function JoinPath(directory: string, name: string): string {
    if name != [] && name[0] == '/' then name else directory + "/" + name
  }

  /** Files whose name starts with "news_row" are news texts; all others WikiLeaks texts. */
  function SourcePath(filename: string): string {
    JoinPath(if IsPrefix("news_row", filename) then NewsDir else WikileaksDir, filename)
  }

  /** The position of the group for `filename`, if there is one. */
  function GroupIndex(groups: seq<(string, seq<string>)>, filename: string): (r: Option<nat>)
    ensures r.Some? ==> r.value < |groups| && groups[r.value].0 == filename
    ensures r.None? ==> forall i :: 0 <= i < |groups| ==> groups[i].0 != filename
  {
    if groups == [] then None
    else if groups[0].0 == filename then Some(0)
    else match GroupIndex(groups[1..], filename)
      case None => None
      case Some(i) => Some(i + 1)
  }

  /** `grouped_entities[e["filename"]].append(e["text"])` for each entity in turn. */
  function Grouped(entities: seq<EntityRef>): seq<(string, seq<string>)>
    decreases |entities|
  {
    if entities == [] then []
    else
      var groups := Grouped(entities[..|entities| - 1]);
      var e := entities[|entities| - 1];
      match GroupIndex(groups, e.filename)
      case None => groups + [(e.filename, [e.text])]
      case Some(i) => groups[i := (groups[i].0, groups[i].1 + [e.text])]
  }

  /** The grouping loop of the scripts' main block. */
  method GroupByFile(entities: seq<EntityRef>) returns (groups: seq<(string, seq<string>)>)
    ensures groups == Grouped(entities)
    ensures forall i, j :: 0 <= i < j < |groups| ==> groups[i].0 != groups[j].0
    ensures forall i :: 0 <= i < |groups| ==> groups[i].1 == TextsIn(entities, groups[i].0)
    ensures forall e :: e in entities ==> GroupIndex(groups, e.filename).Some?
  {
    groups := [];
    var n := 0;
    while n < |entities|
      invariant 0 <= n <= |entities|
      invariant groups == Grouped(entities[..n])
    {
      var e := entities[n];
      assert entities[..n + 1][..n] == entities[..n];
      var found := GroupIndex(groups, e.filename);
      if found.None? {
        groups := groups + [(e.filename, [e.text])];
      } else {
        var i := found.value;
        groups := groups[i := (groups[i].0, groups[i].1 + [e.text])];
      }
      n := n + 1;
    }
    assert entities[..n] == entities;
    GroupedDistinct(entities);
    GroupedTexts(entities);
    GroupedCovers(entities);
  }

  function InFile(filename: string): EntityRef -> bool {
    (e: EntityRef) => e.filename == filename
  }

  function TextOf(): EntityRef -> string {
    (e: EntityRef) => e.text
  }

  /** The texts of the entities of one file, in input order. */
  function TextsIn(entities: seq<EntityRef>, filename: string): seq<string> {
    Map(Filter(entities, InFile(filename)), TextOf())
  }

  /** What appending one entity does to the groups: existing groups keep their files, the
      group of the entity's file gets its text, and a new group is added at the end only
      for a file not seen before. */
  lemma GroupedStep(entities: seq<EntityRef>)
    requires entities != []
    requires var before := Grouped(entities[..|entities| - 1]);
      forall i, j :: 0 <= i < j < |before| ==> before[i].0 != before[j].0
    ensures var before, after := Grouped(entities[..|entities| - 1]), Grouped(entities);
      var e := entities[|entities| - 1];
      && |before| <= |after| <= |before| + 1
      && (forall k :: 0 <= k < |before| ==>
            after[k].0 == before[k].0
            && after[k].1 == before[k].1 + (if before[k].0 == e.filename then [e.text] else []))
      && (|after| == |before| + 1 ==>
            after[|before|] == (e.filename, [e.text])
            && forall k :: 0 <= k < |before| ==> before[k].0 != e.filename)
      && GroupIndex(after, e.filename).Some?
  {
    var before := Grouped(entities[..|entities| - 1]);
    var e := entities[|entities| - 1];
    match GroupIndex(before, e.filename)
    case None =>
    case Some(i) =>
      forall k | 0 <= k < |before| && before[k].0 == e.filename ensures k == i {
        GroupIndexFirst(before, e.filename, k);
      }
  }

  /** `GroupIndex` finds the first group with the name; with distinct names, the only one. */
  lemma {:induction false} GroupIndexFirst(groups: seq<(string, seq<string>)>, filename: string, k: nat)
    requires k < |groups| && groups[k].0 == filename
    ensures GroupIndex(groups, filename).Some? && GroupIndex(groups, filename).value <= k
  {
    if k > 0 && groups[0].0 != filename {
      GroupIndexFirst(groups[1..], filename, k - 1);
    }
  }

  /** No file has two groups. */
  lemma {:induction false} GroupedDistinct(entities: seq<EntityRef>)
    ensures var groups := Grouped(entities);
      forall i, j :: 0 <= i < j < |groups| ==> groups[i].0 != groups[j].0
    decreases |entities|
  {
    if entities != [] {
      GroupedDistinct(entities[..|entities| - 1]);
      GroupedStep(entities);
    }
  }

  /** Each group holds the texts of exactly its file's entities, in input order. */
  lemma {:induction false} GroupedTexts(entities: seq<EntityRef>)
    ensures var groups := Grouped(entities);
      forall i :: 0 <= i < |groups| ==> groups[i].1 == TextsIn(entities, groups[i].0)
    decreases |entities|
  {
    if entities != [] {
      var init := entities[..|entities| - 1];
      var e := entities[|entities| - 1];
      GroupedTexts(init);
      GroupedDistinct(init);
      GroupedStep(entities);
      var before, after := Grouped(init), Grouped(entities);
      forall i | 0 <= i < |after| ensures after[i].1 == TextsIn(entities, after[i].0) {
        var f := after[i].0;
        TextsInSnoc(entities, f);
        if i < |before| {
          assert f == before[i].0 && before[i].1 == TextsIn(init, f);
        } else {
          NewFileHasNoTexts(init, e.filename);
        }
      }
    }
  }

  /** One more entity adds its text to its own file's texts only. */
  lemma TextsInSnoc(entities: seq<EntityRef>, f: string)
    requires entities != []
    ensures var e := entities[|entities| - 1];
      TextsIn(entities, f) == TextsIn(entities[..|entities| - 1], f) + (if e.filename == f then [e.text] else [])
  {
    var init, e := entities[..|entities| - 1], entities[|entities| - 1];
    assert entities == init + [e];
    FilterConcat(init, [e], InFile(f));
    MapConcat(Filter(init, InFile(f)), Filter([e], InFile(f)), TextOf());
  }

  /** A file without a group has no texts. */
  lemma NewFileHasNoTexts(init: seq<EntityRef>, f: string)
    requires forall k :: 0 <= k < |Grouped(init)| ==> Grouped(init)[k].0 != f
    ensures TextsIn(init, f) == []
  {
    GroupedCovers(init);
    forall x | x in init ensures !InFile(f)(x) {
      var k := GroupIndex(Grouped(init), x.filename).value;
    }
    FilterNone(init, InFile(f));
  }

  /** Every entity's file has a group. */
  lemma {:induction false} GroupedCovers(entities: seq<EntityRef>)
    ensures forall e :: e in entities ==> GroupIndex(Grouped(entities), e.filename).Some?
    decreases |entities|
  {
    if entities != [] {
      var init := entities[..|entities| - 1];
      GroupedCovers(init);
      GroupedDistinct(init);
      GroupedStep(entities);
      var before, after := Grouped(init), Grouped(entities);
      forall x | x in entities ensures GroupIndex(after, x.filename).Some? {
        if x in init {
          var k := GroupIndex(before, x.filename).value;
          assert after[k].0 == x.filename;
        } else {
          assert entities == init + [entities[|entities| - 1]];
        }
      }
    }
  }

  /** The job for one pair, unless its relevant text is blank (`not relevant_text.strip()`). */
  function PairJob(pair: (string, string), sentences: seq<string>): seq<Job> {
    var relevant := ExtractRelevantSentences(sentences, pair.0, pair.1);
    if Strip(relevant) == [] then [] else [Job(pair.0, pair.1, relevant)]
  }

  /** The jobs of one file: one per pair whose relevant text is not blank, in pair order. */
  function PairJobs(pairs: seq<(string, string)>, sentences: seq<string>): seq<Job>
    decreases |pairs|
  {
    if pairs == [] then []
    else PairJobs(pairs[..|pairs| - 1], sentences) + PairJob(pairs[|pairs| - 1], sentences)
  }

  lemma PairJobsSnoc(pairs: seq<(string, string)>, p: nat, sentences: seq<string>)
    requires p < |pairs|
    ensures PairJobs(pairs[..p + 1], sentences) == PairJobs(pairs[..p], sentences) + PairJob(pairs[p], sentences)
  {
    assert pairs[..p + 1][..p] == pairs[..p];
  }

  /** The jobs of one group: none when its file cannot be read. */
  function GroupJobs(group: (string, seq<string>), read: string -> Option<string>, tokenize: string -> seq<string>): seq<Job> {
    match read(SourcePath(group.0))
    case None => []
    case Some(text) => PairJobs(Pairs(group.1), tokenize(text))
  }

  /** The jobs of all groups, group by group. */
  function Jobs(groups: seq<(string, seq<string>)>, read: string -> Option<string>, tokenize: string -> seq<string>): seq<Job>
    decreases |groups|
  {
    if groups == [] then []
    else Jobs(groups[..|groups| - 1], read, tokenize) + GroupJobs(groups[|groups| - 1], read, tokenize)
  }

  lemma JobsSnoc(groups: seq<(string, seq<string>)>, g: nat, read: string -> Option<string>, tokenize: string -> seq<string>)
    requires g < |groups|
    ensures Jobs(groups[..g + 1], read, tokenize) == Jobs(groups[..g], read, tokenize) + GroupJobs(groups[g], read, tokenize)
  {
    assert groups[..g + 1][..g] == groups[..g];
  }

  /** A pair yields a job exactly when some sentence mentions one of its two entities, and
      the job carries the pair's relevant text. */
  lemma PairJobSpec(pair: (string, string), sentences: seq<string>)
    ensures PairJob(pair, sentences) != [] <==>
      exists s :: s in sentences && (Mentions(s, pair.0) || Mentions(s, pair.1))
    ensures PairJob(pair, sentences) != [] ==>
      PairJob(pair, sentences) == [Job(pair.0, pair.1, ExtractRelevantSentences(sentences, pair.0, pair.1))]
  {
    StripEmpty(ExtractRelevantSentences(sentences, pair.0, pair.1));
    ExtractRelevantSentencesBlank(sentences, pair.0, pair.1);
  }

  /** Every job of a file is a pair of that file's pairs, with non-blank relevant text. */
  lemma {:induction false} PairJobsFromPairs(pairs: seq<(string, string)>, sentences: seq<string>, j: Job)
    requires j in PairJobs(pairs, sentences)
    ensures (j.entity1, j.entity2) in pairs
    ensures j.text == ExtractRelevantSentences(sentences, j.entity1, j.entity2) && !AllSpace(j.text)
    decreases |pairs|
  {
    var init := pairs[..|pairs| - 1];
    var last := pairs[|pairs| - 1];
    if j in PairJobs(init, sentences) {
      PairJobsFromPairs(init, sentences, j);
      assert forall p :: p in init ==> p in pairs;
    } else {
      assert j in PairJob(last, sentences);
      StripEmpty(j.text);
    }
  }
}
