/**
 * The record sanitiser: `clean_values` walks a parsed JSON record and replaces every
 * dict value that is "", "Unknown" or "N/A" by `None`, descending into nested dicts
 * and into dicts held in lists; `clean_json_data` applies it to every top-level entry.
 */
module StandardizeJson {
  import opened JsonValue
  import opened Wrappers

  /** `value in ["", "Unknown", "N/A"]`; only strings can compare equal to these. */
  predicate IsPlaceholder(v: Json) {
    v.JStr? && (v.s == "" || v.s == "Unknown" || v.s == "N/A")
  }

  /** What a dict member's value becomes once `clean_values` has run on the dict holding it:
      a dict is cleaned recursively, a list has its dict elements cleaned and every other
      element kept, and any other value is nulled exactly when it is a placeholder. */
  function Sanitized(v: Json): Json
    decreases v
  {
    match v
    case JObj(ms) =>
      JObj(seq(|ms|, i requires 0 <= i < |ms| => Member(ms[i].key, Sanitized(ms[i].value))))
    case JArr(items) =>
      JArr(seq(|items|, k requires 0 <= k < |items| => if items[k].JObj? then Sanitized(items[k]) else items[k]))
    case _ => if IsPlaceholder(v) then JNull else v
  }

  /** No value held directly in a dict, in any dict reachable through dicts and lists of
      dicts, is a placeholder. Lists nested in lists are not looked into, as the source
      does not look into them either. */
  ghost predicate NoPlaceholders(v: Json)
    decreases v
  {
    match v
    case JObj(ms) => forall i :: 0 <= i < |ms| ==> !IsPlaceholder(ms[i].value) && NoPlaceholders(ms[i].value)
    case JArr(items) => forall k :: 0 <= k < |items| ==> items[k].JObj? ==> NoPlaceholders(items[k])
    case _ => true
  }

  /** `w` has the same dicts and lists as `v`, with the same keys in the same order at
      every level: only scalar values may differ. */
  ghost predicate SameSkeleton(v: Json, w: Json)
    decreases v
  {
    match v
    case JObj(ms) =>
      w.JObj? && Keys(w.members) == Keys(ms)
      && forall i :: 0 <= i < |ms| ==> SameSkeleton(ms[i].value, w.members[i].value)
    case JArr(items) =>
      w.JArr? && |w.items| == |items|
      && forall k :: 0 <= k < |items| ==> SameSkeleton(items[k], w.items[k])
    case _ => !w.JObj? && !w.JArr?
  }

  /** `clean_values(record)`, run on a dict. The loop reassigns member values one at a
      time, recursing into dict values and into the dict elements of list values. */
  method CleanValues(record: Json) returns (cleaned: Json)
    requires record.JObj?
    ensures cleaned == Sanitized(record)
    ensures cleaned.JObj? && Keys(cleaned.members) == Keys(record.members)
    ensures forall i :: 0 <= i < |record.members| ==>
      var v := record.members[i].value;
      !v.JObj? && !v.JArr? ==> cleaned.members[i].value == (if IsPlaceholder(v) then JNull else v)
    ensures forall i :: 0 <= i < |cleaned.members| ==> !IsPlaceholder(cleaned.members[i].value)
    decreases record
  {
    var ms := record.members;
    var i := 0;
    while i < |ms|
      invariant 0 <= i <= |ms| == |record.members|
      invariant forall k :: 0 <= k < i ==> ms[k] == Member(record.members[k].key, Sanitized(record.members[k].value))
      invariant forall k :: i <= k < |ms| ==> ms[k] == record.members[k]
    {
      var value := ms[i].value;
      assert value == record.members[i].value;
      if value.JObj? {
        var c := CleanValues(value);
        ms := ms[i := Member(ms[i].key, c)];
      } else if value.JArr? {
        var c := CleanList(value);
        ms := ms[i := Member(ms[i].key, c)];
      } else if IsPlaceholder(value) {
        ms := ms[i := Member(ms[i].key, JNull)];
      }
      i := i + 1;
    }
    cleaned := JObj(ms);
  }

  /** The `elif isinstance(value, list)` branch of `clean_values`: every dict element of
      the list is cleaned in place, other elements are kept. */
  method CleanList(value: Json) returns (cleaned: Json)
    requires value.JArr?
    ensures cleaned == Sanitized(value)
    ensures cleaned.JArr? && |cleaned.items| == |value.items|
    decreases value
  {
    var items := value.items;
    var k := 0;
    while k < |items|
      invariant 0 <= k <= |items| == |value.items|
      invariant forall j :: 0 <= j < k ==> items[j] == if value.items[j].JObj? then Sanitized(value.items[j]) else value.items[j]
      invariant forall j :: k <= j < |items| ==> items[j] == value.items[j]
    {
      if items[k].JObj? {
        assert items[k] == value.items[k];
        var c := CleanValues(items[k]);
        items := items[k := c];
      }
      k := k + 1;
    }
    cleaned := JArr(items);
  }

  /** `clean_json_data` between the read and the write: each top-level entry is cleaned in
      turn. The first entry that is not a dict raises AttributeError inside the `try`,
      so the error is printed and nothing is written (None). A top-level value that is
      not iterable fails the same way; an empty dict or string iterates zero times and
      is written back unchanged. */
  method CleanJsonData(data: Json) returns (written: Option<Json>)
    ensures data.JArr? ==>
      (written.Some? <==> forall k :: 0 <= k < |data.items| ==> data.items[k].JObj?)
    ensures data.JArr? && written.Some? ==>
      written.value.JArr? && |written.value.items| == |data.items|
      && forall k :: 0 <= k < |data.items| ==> written.value.items[k] == Sanitized(data.items[k])
    ensures !data.JArr? ==> written == if data == JObj([]) || data == JStr("") then Some(data) else None
  {
    if !data.JArr? {
      if data == JObj([]) || data == JStr("") {
        return Some(data);
      }
      return None;
    }
    var entries := data.items;
    var k := 0;
    while k < |entries|
      invariant 0 <= k <= |entries| == |data.items|
      invariant forall j :: 0 <= j < k ==> data.items[j].JObj? && entries[j] == Sanitized(data.items[j])
      invariant forall j :: k <= j < |entries| ==> entries[j] == data.items[j]
    {
      if !entries[k].JObj? {
        return None;
      }
      var c := CleanValues(entries[k]);
      entries := entries[k := c];
      k := k + 1;
    }
    written := Some(JArr(entries));
  }

  /** After `clean_values` no placeholder is left anywhere the walk reaches. */
  lemma {:induction false} SanitizedHasNoPlaceholders(v: Json)
    ensures NoPlaceholders(Sanitized(v))
    decreases v
  {
    match v
    case JObj(ms) =>
      forall i | 0 <= i < |ms| ensures !IsPlaceholder(Sanitized(ms[i].value)) && NoPlaceholders(Sanitized(ms[i].value)) {
        SanitizedHasNoPlaceholders(ms[i].value);
      }
    case JArr(items) =>
      forall k | 0 <= k < |items| && items[k].JObj? ensures NoPlaceholders(Sanitized(items[k])) {
        SanitizedHasNoPlaceholders(items[k]);
      }
    case _ =>
  }

  /** Only values are reassigned: every dict keeps its keys, every list its length. */
  lemma {:induction false} SanitizedKeepsSkeleton(v: Json)
    ensures SameSkeleton(v, Sanitized(v))
    decreases v
  {
    match v
    case JObj(ms) =>
      forall i | 0 <= i < |ms| ensures SameSkeleton(ms[i].value, Sanitized(v).members[i].value) {
        SanitizedKeepsSkeleton(ms[i].value);
      }
    case JArr(items) =>
      forall k | 0 <= k < |items| ensures SameSkeleton(items[k], Sanitized(v).items[k]) {
        SanitizedKeepsSkeleton(items[k]);
        if !items[k].JObj? { SameSkeletonReflexive(items[k]); }
      }
    case _ =>
  }

  lemma {:induction false} SameSkeletonReflexive(v: Json)
    ensures SameSkeleton(v, v)
    decreases v
  {
    match v
    case JObj(ms) =>
      forall i | 0 <= i < |ms| ensures SameSkeleton(ms[i].value, ms[i].value) {
        SameSkeletonReflexive(ms[i].value);
      }
    case JArr(items) =>
      forall k | 0 <= k < |items| ensures SameSkeleton(items[k], items[k]) {
        SameSkeletonReflexive(items[k]);
      }
    case _ =>
  }

  /** Idempotence: a second pass changes nothing, since `None` is not a placeholder. */
  lemma {:induction false} SanitizedIdempotent(v: Json)
    ensures Sanitized(Sanitized(v)) == Sanitized(v)
    decreases v
  {
    match v
    case JObj(ms) =>
      forall i | 0 <= i < |ms| ensures Sanitized(Sanitized(ms[i].value)) == Sanitized(ms[i].value) {
        SanitizedIdempotent(ms[i].value);
      }
      assert Sanitized(Sanitized(v)).members == Sanitized(v).members;
    case JArr(items) =>
      forall k | 0 <= k < |items| && items[k].JObj? ensures Sanitized(Sanitized(items[k])) == Sanitized(items[k]) {
        SanitizedIdempotent(items[k]);
      }
      assert Sanitized(Sanitized(v)).items == Sanitized(v).items;
    case _ =>
  }
}
