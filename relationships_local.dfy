/**
 * The local-model extraction script: the reply's first `{ ... }` span is parsed, its
 * "Relevant Context" cleaned, and any exception turned into an error record; the main
 * loop appends one record per job to the output file, flagging the first append.
 * The model is a parameter mapping a job to its decoded reply, or to the message of the
 * exception raised while producing it; `json.loads` of a span (which starts with `{`,
 * so it yields a dict or raises) and the `unicode_escape` codec are parameters too.
 */
module RelationshipsLocal {
  import opened Wrappers
  import opened Text
  import opened Seqs
  import opened JsonValue
  import opened ContextCleaning
  import opened RelevantText
  import opened Pipeline
  import opened JsonFile

  /** The first index at or after `from` holding `c`. */
  function IndexFrom(s: string, c: char, from: nat): (r: Option<nat>)
    ensures r.Some? ==> from <= r.value < |s| && s[r.value] == c
    ensures r.Some? ==> forall k :: from <= k < r.value ==> s[k] != c
    ensures r.None? ==> forall k :: from <= k < |s| ==> s[k] != c
    decreases |s| - from
  {
    if from >= |s| then None
    else if s[from] == c then Some(from)
    else IndexFrom(s, c, from + 1)
  }

  /** `re.search(r"\{.*?\}", text, re.DOTALL)`: the bounds of the match, if any. */
  function JsonSpanBounds(text: string): Option<(nat, nat)>
  {
    match IndexFrom(text, '{', 0)
    case None => None
    case Some(i) =>
      match IndexFrom(text, '}', i + 1)
      case None => None
      case Some(j) => Some((i, j))
  }

  /** A match of the pattern: a `{` at `i` and a `}` at `j` after it. */
  predicate SpanAt(text: string, i: int, j: int) {
    0 <= i < j < |text| && text[i] == '{' && text[j] == '}'
  }

  /** The search returns the leftmost match and, from there, the shortest one (the lazy
      `.*?`): it runs from the first `{` to the first `}` after it, so the span holds no
      other `}`. There is no match exactly when no `}` follows any `{`. */
  lemma JsonSpanBoundsSpec(text: string)
    ensures JsonSpanBounds(text).None? <==> forall i, j :: !SpanAt(text, i, j)
    ensures JsonSpanBounds(text).Some? ==>
      var (i, j) := JsonSpanBounds(text).value;
      && SpanAt(text, i, j)
      && (forall i', j' :: SpanAt(text, i', j') ==> i < i' || (i == i' && j <= j'))
      && (forall k :: i < k < j ==> text[k] != '}')
  {
    match IndexFrom(text, '{', 0)
    case None =>
    case Some(i) =>
      match IndexFrom(text, '}', i + 1)
      case None =>
        forall i', j' | 0 <= i' < j' < |text| && text[i'] == '{' ensures text[j'] != '}' {
          assert i <= i';
        }
      case Some(j) =>
        assert SpanAt(text, i, j);
  }

  /** The record returned when an exception is caught. */
  function ErrorRecord(entity1: string, entity2: string, message: string): Json {
    JObj([Member("Entity 1", JStr(entity1)), Member("Entity 2", JStr(entity2)), Member("Error", JStr(message))])
  }

  /** Lines 151-152: the "Relevant Context" value, when present, is replaced by its cleaned
      form; a value that is not a string has no `encode` and raises. */
  function CleanContextField(ms: seq<Member>, unicodeEscape: string -> Result<string, string>): Result<seq<Member>, string>
  {
    match Lookup(ms, "Relevant Context")
    case None => Ok(ms)
    case Some(JStr(t)) =>
      (match CleanRelevantContext(t, unicodeEscape)
       case Err(e) => Err(e)
       case Ok(c) => Ok(SetValue(ms, "Relevant Context", JStr(c))))
    case Some(v) => Err("'" + TypeName(v) + "' object has no attribute 'encode'")
  }

  /** Cleaning keeps the keys and every other value; a context it cleans is single-spaced. */
  lemma CleanContextFieldSpec(ms: seq<Member>, unicodeEscape: string -> Result<string, string>)
    ensures CleanContextField(ms, unicodeEscape).Ok? ==>
      var cleaned := CleanContextField(ms, unicodeEscape).value;
      && Keys(cleaned) == Keys(ms)
      && (forall k :: k != "Relevant Context" ==> Lookup(cleaned, k) == Lookup(ms, k))
      && (HasKey(ms, "Relevant Context") ==>
            Lookup(cleaned, "Relevant Context").Some?
            && Lookup(cleaned, "Relevant Context").value.JStr?
            && SingleSpaced(Lookup(cleaned, "Relevant Context").value.s))
    ensures !HasKey(ms, "Relevant Context") ==> CleanContextField(ms, unicodeEscape) == Ok(ms)
  {
    match Lookup(ms, "Relevant Context")
    case None =>
    case Some(JStr(t)) =>
      if unicodeEscape(t).Ok? {
        CleanRelevantContextSpacing(t, unicodeEscape);
        forall k | k != "Relevant Context" ensures Lookup(CleanContextField(ms, unicodeEscape).value, k) == Lookup(ms, k) {
          SetValueOthers(ms, "Relevant Context", JStr(CleanRelevantContext(t, unicodeEscape).value), k);
        }
      }
    case Some(v) =>
  }

  /** Lines 145-159 of `extract_relationship`: the result for one pair, from the model's
      reply or the exception raised producing it. */
  function ExtractRelationshipLocal(entity1: string, entity2: string, reply: Result<string, string>,
                                    parse: string -> Result<seq<Member>, string>,
                                    unicodeEscape: string -> Result<string, string>): Json
  {
    match reply
    case Err(e) => ErrorRecord(entity1, entity2, e)
    case Ok(out) =>
      match JsonSpanBounds(out)
      case None => JObj([])
      case Some((i, j)) =>
        match parse(out[i..j + 1])
        case Err(e) => ErrorRecord(entity1, entity2, e)
        case Ok(ms) =>
          match CleanContextField(ms, unicodeEscape)
          case Err(e) => ErrorRecord(entity1, entity2, e)
          case Ok(cleaned) => JObj(cleaned)
  }

  /** The result is always a dict: `{}` when the reply holds no `{ ... }` span, the error
      record when anything raised, and otherwise the parsed span with its context cleaned. */
  lemma ExtractRelationshipLocalCases(entity1: string, entity2: string, reply: Result<string, string>,
                                      parse: string -> Result<seq<Member>, string>,
                                      unicodeEscape: string -> Result<string, string>)
    ensures var r := ExtractRelationshipLocal(entity1, entity2, reply, parse, unicodeEscape);
      && r.JObj?
      && (reply.Err? ==> r == ErrorRecord(entity1, entity2, reply.error))
      && (reply.Ok? && (forall i, j :: !SpanAt(reply.value, i, j)) ==> r == JObj([]))
    ensures reply.Ok? && JsonSpanBounds(reply.value).Some? ==>
      var (i, j) := JsonSpanBounds(reply.value).value;
      var r := ExtractRelationshipLocal(entity1, entity2, reply, parse, unicodeEscape);
      match parse(reply.value[i..j + 1])
      case Err(e) => r == ErrorRecord(entity1, entity2, e)
      case Ok(ms) =>
        (CleanContextField(ms, unicodeEscape).Err? ==> r == ErrorRecord(entity1, entity2, CleanContextField(ms, unicodeEscape).error))
        && (CleanContextField(ms, unicodeEscape).Ok? ==> r == JObj(CleanContextField(ms, unicodeEscape).value) && Keys(r.members) == Keys(ms))
  {
    if reply.Ok? {
      if JsonSpanBounds(reply.value).Some? {
        var (i, j) := JsonSpanBounds(reply.value).value;
        assert SpanAt(reply.value, i, j);
        match parse(reply.value[i..j + 1])
        case Err(_) =>
        case Ok(ms) => CleanContextFieldSpec(ms, unicodeEscape);
      }
    }
  }

  /** The record the extractor produces for a job. */
  function RecordOf(reply: Job -> Result<string, string>, parse: string -> Result<seq<Member>, string>,
                    unicodeEscape: string -> Result<string, string>): Job -> Json
  {
    (j: Job) => ExtractRelationshipLocal(j.entity1, j.entity2, reply(j), parse, unicodeEscape)
  }

  /** One more pair adds the records of its jobs to the records of the pairs before it. */
  lemma PairStep(pairs: seq<(string, string)>, p: nat, sentences: seq<string>, record: Job -> Json,
                 done: seq<Json>, records: seq<Json>)
    requires p < |pairs| && records == done + Map(PairJobs(pairs[..p], sentences), record)
    ensures done + Map(PairJobs(pairs[..p + 1], sentences), record)
         == records + Map(PairJob(pairs[p], sentences), record)
  {
    PairJobsSnoc(pairs, p, sentences);
    MapConcatAfter(done, PairJobs(pairs[..p], sentences), PairJob(pairs[p], sentences), record);
  }

  /** A pair has the record of its job, if it has a job. */
  lemma PairRecord(pair: (string, string), sentences: seq<string>, record: Job -> Json)
    ensures var relevant := ExtractRelevantSentences(sentences, pair.0, pair.1);
      Map(PairJob(pair, sentences), record)
        == if Strip(relevant) == [] then [] else [record(Job(pair.0, pair.1, relevant))]
  {
  }

  /** One round of the inner loop of the main block: a pair with a blank relevant text
      is skipped, any other one has its record extracted and appended, with
      `first_result` set when nothing has been appended yet. */
  method AppendPair(file: OutputFile, pair: (string, string), sentences: seq<string>,
                    reply: Job -> Result<string, string>, parse: string -> Result<seq<Member>, string>,
                    unicodeEscape: string -> Result<string, string>, dump: Json -> string,
                    firstIn: bool, ghost done: seq<Json>)
    returns (firstOut: bool, ghost records: seq<Json>)
    requires file.present && file.content == LocalArray(Map(done, dump))
    requires firstIn == (done == [])
    modifies file
    ensures file.present && file.content == LocalArray(Map(records, dump))
    ensures records == done + Map(PairJob(pair, sentences), RecordOf(reply, parse, unicodeEscape))
    ensures firstOut == (records == [])
  {
    PairRecord(pair, sentences, RecordOf(reply, parse, unicodeEscape));
    firstOut, records := firstIn, done;
    var (entity1, entity2) := pair;
    var relevantText := ExtractRelevantSentences(sentences, entity1, entity2);
    if Strip(relevantText) != [] {
      var job := Job(entity1, entity2, relevantText);
      var result := ExtractRelationshipLocal(entity1, entity2, reply(job), parse, unicodeEscape);
      assert result == RecordOf(reply, parse, unicodeEscape)(job);
      assert firstIn == (Map(done, dump) == []);
      var _ := file.AppendLocal(result, dump, firstIn);
      LocalAppendedSnoc(Map(done, dump), result, dump);
      MapSnoc(done, result, dump);
      records := done + [result];
      firstOut := false;
    }
  }

  /** The inner loop of the main block over one file's pairs (lines 217-227). */
  method AppendPairs(file: OutputFile, pairs: seq<(string, string)>, sentences: seq<string>,
                     reply: Job -> Result<string, string>, parse: string -> Result<seq<Member>, string>,
                     unicodeEscape: string -> Result<string, string>, dump: Json -> string,
                     firstIn: bool, ghost done: seq<Json>)
    returns (firstOut: bool, ghost records: seq<Json>)
    requires file.present && file.content == LocalArray(Map(done, dump))
    requires firstIn == (done == [])
    modifies file
    ensures file.present && file.content == LocalArray(Map(records, dump))
    ensures records == done + Map(PairJobs(pairs, sentences), RecordOf(reply, parse, unicodeEscape))
    ensures firstOut == (records == [])
  {
    ghost var record := RecordOf(reply, parse, unicodeEscape);
    firstOut := firstIn;
    records := done;
    var p := 0;
    while p < |pairs|
      invariant 0 <= p <= |pairs|
      invariant file.present && file.content == LocalArray(Map(records, dump))
      invariant records == done + Map(PairJobs(pairs[..p], sentences), record)
      invariant firstOut == (records == [])
    {
      PairStep(pairs, p, sentences, record, done, records);
      ghost var next := done + Map(PairJobs(pairs[..p + 1], sentences), record);
      firstOut, records := AppendPair(file, pairs[p], sentences, reply, parse, unicodeEscape, dump, firstOut, records);
      assert records == next;
      p := p + 1;
    }
    assert pairs[..p] == pairs;
  }

  /** One more group adds the records of its jobs to the records of the groups before it. */
  lemma GroupStep(groups: seq<(string, seq<string>)>, g: nat, read: string -> Option<string>,
                  tokenize: string -> seq<string>, record: Job -> Json, records: seq<Json>)
    requires g < |groups| && records == Map(Jobs(groups[..g], read, tokenize), record)
    ensures Map(Jobs(groups[..g + 1], read, tokenize), record)
         == records + Map(GroupJobs(groups[g], read, tokenize), record)
  {
    JobsSnoc(groups, g, read, tokenize);
    MapConcatAfter([], Jobs(groups[..g], read, tokenize), GroupJobs(groups[g], read, tokenize), record);
  }

  /** One round of the outer loop of the main block (lines 208-227): a file that cannot be
      read adds nothing, any other one has its text split into sentences and its pairs
      appended. */
  method AppendGroup(file: OutputFile, group: (string, seq<string>), read: string -> Option<string>,
                     tokenize: string -> seq<string>, reply: Job -> Result<string, string>,
                     parse: string -> Result<seq<Member>, string>,
                     unicodeEscape: string -> Result<string, string>, dump: Json -> string,
                     firstIn: bool, ghost done: seq<Json>)
    returns (firstOut: bool, ghost records: seq<Json>)
    requires file.present && file.content == LocalArray(Map(done, dump))
    requires firstIn == (done == [])
    modifies file
    ensures file.present && file.content == LocalArray(Map(records, dump))
    ensures records == done + Map(GroupJobs(group, read, tokenize), RecordOf(reply, parse, unicodeEscape))
    ensures firstOut == (records == [])
  {
    firstOut, records := firstIn, done;
    var (filename, entityList) := group;
    var text := read(SourcePath(filename));
    if text.Some? {
      firstOut, records := AppendPairs(file, Pairs(entityList), tokenize(text.value), reply, parse,
                                       unicodeEscape, dump, firstIn, done);
    } else {
      assert done + Map([], RecordOf(reply, parse, unicodeEscape)) == done;
    }
  }

  /** The main block (lines 197-229): initialise the file, group the entities, append one
      record per job with `first_result` set for the first append only, and finalize. */
  method RunLocal(file: OutputFile, entities: seq<EntityRef>, read: string -> Option<string>,
                  tokenize: string -> seq<string>, reply: Job -> Result<string, string>,
                  parse: string -> Result<seq<Member>, string>,
                  unicodeEscape: string -> Result<string, string>, dump: Json -> string)
    modifies file
    ensures file.present
    ensures file.content == Finalized(LocalArray(Map(
      Map(Jobs(Grouped(entities), read, tokenize), RecordOf(reply, parse, unicodeEscape)), dump)))
  {
    file.Initialize();
    var groups := GroupByFile(entities);
    ghost var record := RecordOf(reply, parse, unicodeEscape);
    var firstResult := true;
    ghost var records: seq<Json> := [];
    LocalAppendedSnoc([], JNull, dump);
    var g := 0;
    while g < |groups|
      invariant 0 <= g <= |groups|
      invariant file.present && file.content == LocalArray(Map(records, dump))
      invariant records == Map(Jobs(groups[..g], read, tokenize), record)
      invariant firstResult == (records == [])
    {
      GroupStep(groups, g, read, tokenize, record, records);
      firstResult, records := AppendGroup(file, groups[g], read, tokenize, reply, parse, unicodeEscape,
                                          dump, firstResult, records);
      g := g + 1;
    }
    assert groups[..g] == groups;
    var _ := file.FinalizeJson();
  }
}
