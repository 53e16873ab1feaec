/**
 * The output file that both extraction scripts grow one record at a time, kept as a
 * JSON array on disk: `initialize_json`, the two `append_to_json` variants, which
 * truncate the closing bracket and write the next record after a separator, and
 * `finalize_json`, which is meant to make sure the array is closed.
 * The file is its existence flag and its text; `json.dump` is a parameter.
 */
module JsonFile {
  import opened Text
  import opened JsonValue
  import opened Seqs

  /** What `initialize_json` writes: an empty array. */
  const EmptyArray: string := "[\n]"

  /** The file after the API script's `append_to_json(result)`. A missing file becomes a
      one-element array; otherwise, when it is longer than two characters, its last
      character is cut and a comma written, then the record and a closing bracket. */
  function ApiAppended(present: bool, content: string, result: Json, dump: Json -> string): string
  {
    if !present then dump(JArr([result]))
    else (if |content| > 2 then content[..|content| - 1] + ",\n" else content) + dump(result) + "\n]"
  }

  /** The file after the local script's `append_to_json(result, first_result)`: when it is
      longer than two characters, its last two are cut and, unless this is the first
      result, a comma written; then the record and a closing bracket. */
  function LocalAppended(content: string, result: Json, dump: Json -> string, first: bool): string
  {
    (if |content| > 2 then content[..|content| - 2] + (if first then "" else ",\n") else content)
    + dump(result) + "\n]"
  }

  /** The file after `finalize_json`, as written: it reads the SECOND-TO-LAST character and
      appends a closing bracket when that is not `]`. */
  function Finalized(content: string): string
  {
    if |content| > 2 && content[|content| - 2] != ']' then content + "\n]" else content
  }

  /** `finalize_json` as evidently intended: look at the last character. */
  function FinalizedFixed(content: string): string
  {
    if |content| > 2 && content[|content| - 1] != ']' then content + "\n]" else content
  }

  /** The text of the local script's file holding the dumped records `dumps`. */
  function LocalArray(dumps: seq<string>): string {
    "[" + Join(",\n", dumps) + "\n]"
  }

  /** The text of the API script's file after a first record, dumped inside its own
      one-element array as `head`, and then the records dumped as `dumps`. */
  function ApiArray(head: string, dumps: seq<string>): string
    requires |head| > 0
  {
    if dumps == [] then head else head[..|head| - 1] + ",\n" + Join("\n,\n", dumps) + "\n]"
  }

  /** What is assumed of `json.dump`: a non-empty list is dumped as more than its two
      brackets, opening with `[` and closing with `]` (with `indent=4` the elements go on
      lines of their own between them). */
  ghost predicate DumpsLists(dump: Json -> string) {
    forall xs: seq<Json> {:trigger dump(JArr(xs))} :: xs != [] ==>
      |dump(JArr(xs))| > 2 && dump(JArr(xs))[0] == '[' && dump(JArr(xs))[|dump(JArr(xs))| - 1] == ']'
  }

  /** A file on disk: whether it exists and, if it does, its text. */
  class OutputFile {
    var present: bool
    var content: string

    /** No file yet. */
    constructor ()
      ensures !present && content == []
    {
      present := false;
      content := [];
    }

    /** `initialize_json`: create or overwrite the file with an empty array. */
    method Initialize()
      modifies this
      ensures present && content == EmptyArray
    {
      present := true;
      content := EmptyArray;
    }

    /** `append_to_json` of the API script. */
    method AppendApi(result: Json, dump: Json -> string)
      modifies this
      ensures present
      ensures content == ApiAppended(old(present), old(content), result, dump)
    {
      if !present {
        present := true;
        content := dump(JArr([result]));
      } else {
        var size := |content|;
        if size > 2 {
          content := content[..size - 1];
          content := content + ",\n";
        }
        content := content + dump(result);
        content := content + "\n]";
      }
    }

    /** `append_to_json` of the local script. Opening a missing file for update raises:
        `ok` is false and nothing changes. */
    method AppendLocal(result: Json, dump: Json -> string, first: bool) returns (ok: bool)
      modifies this
      ensures ok == old(present) && present == old(present)
      ensures content == if ok then LocalAppended(old(content), result, dump, first) else old(content)
    {
      if !present {
        return false;
      }
      var size := |content|;
      if size > 2 {
        content := content[..size - 2];
        if !first {
          content := content + ",\n";
        }
      }
      content := content + dump(result);
      content := content + "\n]";
      return true;
    }

    /** `finalize_json`, shared by both scripts. Opening a missing file for update raises:
        `ok` is false and nothing changes. */
    method FinalizeJson() returns (ok: bool)
      modifies this
      ensures ok == old(present) && present == old(present)
      ensures content == if ok then Finalized(old(content)) else old(content)
    {
      if !present {
        return false;
      }
      var size := |content|;
      if size > 2 && content[size - 2] != ']' {
        content := content + "\n]";
      }
      return true;
    }
  }

  /** Whatever it held, an API append leaves the file ending in `]`: an existing file ends
      with a newline and the bracket, and a new one is the dumped one-element array, which
      opens with `[` and closes with `]`. */
  lemma ApiAppendedCloses(present: bool, content: string, result: Json, dump: Json -> string)
    requires DumpsLists(dump)
    ensures var c := ApiAppended(present, content, result, dump); |c| >= 2 && c[|c| - 1] == ']'
    ensures present ==>
      var c := ApiAppended(present, content, result, dump);
      c[|c| - 2..] == "\n]"
    ensures !present ==>
      var c := ApiAppended(present, content, result, dump);
      c == dump(JArr([result])) && c[0] == '['
  {
    if !present {
      assert [result] != [];
    }
  }

  /** A file of two characters or fewer is not truncated and gets no comma: its old text
      stays in front of the record. */
  lemma ApiAppendedShortFile(content: string, result: Json, dump: Json -> string)
    requires |content| <= 2
    ensures IsPrefix(content, ApiAppended(true, content, result, dump))
    ensures |ApiAppended(true, content, result, dump)| == |content| + |dump(result)| + 2
  {
  }

  /** Appending to the API file extends the array: each later record follows a comma line. */
  lemma ApiArraySnoc(head: string, dumps: seq<string>, d: string, result: Json, dump: Json -> string)
    requires |head| > 2 && dump(result) == d
    ensures ApiAppended(true, ApiArray(head, dumps), result, dump) == ApiArray(head, dumps + [d])
  {
    var p := head[..|head| - 1] + ",\n";
    if dumps != [] {
      var j := Join("\n,\n", dumps);
      ApiArrayOpen(head, dumps);
      ApiArrayOpen(head, dumps + [d]);
      CutBracketThenAppend(p + j, result, dump);
      JoinSnoc("\n,\n", dumps, d);
      CommaLineAssoc(p, j, d);
    } else {
      assert Join("\n,\n", [d]) == d;
    }
  }

  /** A non-empty API array: the head's opening, a comma, the records, the bracket. */
  lemma ApiArrayOpen(head: string, dumps: seq<string>)
    requires |head| > 0 && dumps != []
    ensures ApiArray(head, dumps) == (head[..|head| - 1] + ",\n" + Join("\n,\n", dumps)) + "\n]"
  {
  }

  /** Cutting the last character of a text ending in "\n]" and writing a comma, a record
      and "\n]" leaves the text before the bracket, a comma line, the record and "\n]". */
  lemma CutBracketThenAppend(a: string, result: Json, dump: Json -> string)
    requires a != []
    ensures ApiAppended(true, a + "\n]", result, dump) == a + "\n,\n" + dump(result) + "\n]"
  {
    var c := a + "\n]";
    assert c[..|c| - 1] == a + "\n";
  }

  lemma CommaLineAssoc(p: string, j: string, d: string)
    ensures (p + j) + "\n,\n" + d + "\n]" == p + (j + "\n,\n" + d) + "\n]"
  {
  }

  /** The first API append to a missing file, then one append per further record. */
  lemma {:induction false} ApiAppendsBuildArray(first: Json, rest: seq<Json>, dump: Json -> string)
    requires DumpsLists(dump)
    ensures ApiAppends(ApiAppended(false, [], first, dump), rest, dump)
         == ApiArray(dump(JArr([first])), Map(rest, dump))
    ensures var c := ApiArray(dump(JArr([first])), Map(rest, dump)); |c| > 2 && c[|c| - 1] == ']'
    decreases |rest|
  {
    assert [first] != [];
    if rest != [] {
      var init := rest[..|rest| - 1];
      var last := rest[|rest| - 1];
      ApiAppendsBuildArray(first, init, dump);
      assert rest == init + [last];
      MapSnoc(init, last, dump);
      ApiArraySnoc(dump(JArr([first])), Map(init, dump), dump(last), last, dump);
    }
  }

  /** The API file after appending `results` in order to an existing file. */
  function ApiAppends(content: string, results: seq<Json>, dump: Json -> string): string
    decreases |results|
  {
    if results == [] then content
    else ApiAppended(true, ApiAppends(content, results[..|results| - 1], dump), results[|results| - 1], dump)
  }

  /** An empty local file is the empty array, and a local append with `first` set exactly
      when nothing has been written yet adds one element to the array. */
  lemma LocalAppendedSnoc(dumps: seq<string>, result: Json, dump: Json -> string)
    ensures LocalArray([]) == EmptyArray
    ensures LocalAppended(LocalArray(dumps), result, dump, dumps == []) == LocalArray(dumps + [dump(result)])
  {
    var c := LocalArray(dumps);
    var j := Join(",\n", dumps);
    var d := dump(result);
    assert c[..|c| - 2] == "[" + j;
    if dumps != [] {
      JoinSnoc(",\n", dumps, d);
      assert ("[" + j) + ",\n" + d == "[" + ((j + ",\n") + d);
    } else {
      assert dumps + [d] == [d];
      assert Join(",\n", [d]) == d;
    }
  }

  /** The local file after the appends of `results`, the first one flagged first. */
  function LocalAppends(content: string, results: seq<Json>, dump: Json -> string): string
    decreases |results|
  {
    if results == [] then content
    else
      var init := results[..|results| - 1];
      LocalAppended(LocalAppends(content, init, dump), results[|results| - 1], dump, init == [])
  }

  /** Starting from `initialize_json`, the local appends build "[" + the records joined by
      ",\n" + "\n]". */
  lemma {:induction false} LocalAppendsBuildArray(results: seq<Json>, dump: Json -> string)
    ensures LocalAppends(EmptyArray, results, dump) == LocalArray(Map(results, dump))
    decreases |results|
  {
    LocalAppendedSnoc([], JNull, dump);
    if results != [] {
      var init := results[..|results| - 1];
      var last := results[|results| - 1];
      LocalAppendsBuildArray(init, dump);
      assert results == init + [last];
      MapSnoc(init, last, dump);
      LocalAppendedSnoc(Map(init, dump), last, dump);
    }
  }

  /** As written, finalizing a file that ends with a newline and a closing bracket (the
      empty array, or any file after an append) adds a second closing bracket, and doing it
      again adds yet another: the check looks one character too far back. */
  lemma FinalizedDoublesBracket(content: string)
    requires |content| > 2 && content[|content| - 2..] == "\n]"
    ensures Finalized(content) == content + "\n]"
    ensures Finalized(Finalized(content)) != Finalized(content)
  {
    assert content[|content| - 2] == content[|content| - 2..][0];
    var f := content + "\n]";
    assert f[|f| - 2] == '\n';
  }

  /** The empty array of `initialize_json` and every local append end in "\n]" (for the
      API append see `ApiAppendedCloses`), so the double bracket follows every run. */
  lemma LocalAppendedCloses(content: string, result: Json, dump: Json -> string, first: bool)
    ensures EmptyArray[|EmptyArray| - 2..] == "\n]"
    ensures var c := LocalAppended(content, result, dump, first); |c| >= 2 && c[|c| - 2..] == "\n]"
  {
  }

  /** The intended finalize leaves a file that already ends with `]` as it is, always
      leaves a file longer than two characters ending with `]`, and is idempotent. */
  lemma FinalizedFixedCloses(content: string)
    ensures |content| > 2 && content[|content| - 1] == ']' ==> FinalizedFixed(content) == content
    ensures |content| > 2 ==> FinalizedFixed(content)[|FinalizedFixed(content)| - 1] == ']'
    ensures |content| <= 2 ==> FinalizedFixed(content) == content
    ensures FinalizedFixed(FinalizedFixed(content)) == FinalizedFixed(content)
  {
  }
}
