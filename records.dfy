/** Record field reconciliation in the two fetch scripts: `normalize` and
    `flatten` (fixed key sets with fallbacks over optional fields), the
    response-shape dispatch of the export endpoint, the hit list of the search
    endpoint, the `--limit` truncation, the metadata merge, and the CSV header
    (the sorted union of all row keys). */
module Records {
  import opened Common

  /** A decision as a JSON object. */
  type Record = map<string, Json>

  /** Python's chain `v0 or v1 or ... or vn`: the first truthy value, or the last one. */
  function FirstTruthy(vals: seq<Json>): Json
    requires vals != []
  {
    if |vals| == 1 || Truthy(vals[0]) then vals[0] else FirstTruthy(vals[1..])
  }

  /** The `or` chain yields the value at the first truthy position, every
      position before it being falsy; with no truthy value it yields the last one. */
  lemma {:induction false} FirstTruthyPicks(vals: seq<Json>)
    requires vals != []
    ensures exists i ::
      && 0 <= i < |vals| && FirstTruthy(vals) == vals[i]
      && (forall j :: 0 <= j < i ==> !Truthy(vals[j]))
      && (Truthy(vals[i]) || i == |vals| - 1)
  {
    if |vals| == 1 || Truthy(vals[0]) {
      assert FirstTruthy(vals) == vals[0];
    } else {
      FirstTruthyPicks(vals[1..]);
      var i :| 0 <= i < |vals[1..]| && FirstTruthy(vals[1..]) == vals[1..][i]
        && (forall j :: 0 <= j < i ==> !Truthy(vals[1..][j]))
        && (Truthy(vals[1..][i]) || i == |vals[1..]| - 1);
      assert forall j :: 0 <= j < i + 1 ==> !Truthy(vals[j]) by {
        forall j | 0 <= j < i + 1
          ensures !Truthy(vals[j])
        {
          if j > 0 {
            assert vals[j] == vals[1..][j - 1];
          }
        }
      }
      assert FirstTruthy(vals) == vals[i + 1];
    }
  }

  /** A nested `or` is the flat chain: `(a or b) or c` is `a or b or c`. */
  lemma OrIsFirstTruthy(a: Json, b: Json, c: Json)
    ensures Or(a, b) == FirstTruthy([a, b])
    ensures Or(Or(a, b), c) == FirstTruthy([a, b, c])
  {
    assert FirstTruthy([c]) == c;
    assert [a, b][1..] == [b];
    assert FirstTruthy([a, b]) == if Truthy(a) then a else FirstTruthy([b]);
    assert [b, c][1..] == [c];
    assert FirstTruthy([b, c]) == if Truthy(b) then b else FirstTruthy([c]);
    assert [a, b, c][1..] == [b, c];
    assert FirstTruthy([a, b, c]) == if Truthy(a) then a else FirstTruthy([b, c]);
  }

  // ---------------------------------------------------------------------------
  // normalize (the export script)

  /** The twelve keys every normalised export row carries. */
  const NormalizedKeys: seq<string> := [
    "ada", "subject", "organizationUid", "organizationName", "decisionTypeId",
    "decisionTypeLabel", "protocolNumber", "issueDate", "submissionTimestamp",
    "publishTimestamp", "url", "documentUrl"]

  /** `normalize(hit)`: the twelve unified keys; the organisation name falls
      back to `organizationLabel`, the type code to `decisionTypeUid` and then
      `type` (falsy values fall through); every other key is copied or None. */
  function Normalize(hit: Record): (r: Record)
    ensures r.Keys == set k | k in NormalizedKeys
    ensures "organizationName" in r && r["organizationName"] == FirstTruthy([Get(hit, "organizationName"), Get(hit, "organizationLabel")])
    ensures "decisionTypeId" in r && r["decisionTypeId"] ==
      FirstTruthy([Get(hit, "decisionTypeId"), Get(hit, "decisionTypeUid"), Get(hit, "type")])
    ensures forall k :: k in NormalizedKeys && k != "organizationName" && k != "decisionTypeId" ==> r[k] == Get(hit, k)
  {
    OrIsFirstTruthy(Get(hit, "organizationName"), Get(hit, "organizationLabel"), JNull);
    OrIsFirstTruthy(Get(hit, "decisionTypeId"), Get(hit, "decisionTypeUid"), Get(hit, "type"));
    assert NormalizedKeys[3] == "organizationName" && NormalizedKeys[4] == "decisionTypeId";
    map k | k in NormalizedKeys :: NormalizedField(hit, k)
  }

  /** The value `normalize` writes under key `k`. */
  function NormalizedField(hit: Record, k: string): Json {
    if k == "organizationName" then Or(Get(hit, "organizationName"), Get(hit, "organizationLabel"))
    else if k == "decisionTypeId" then Or(Or(Get(hit, "decisionTypeId"), Get(hit, "decisionTypeUid")), Get(hit, "type"))
    else Get(hit, k)
  }

  // ---------------------------------------------------------------------------
  // flatten (the search script)

  /** The ten keys `flatten` always writes. */
  const FlatKeys: seq<string> := [
    "ada", "subject", "organizationUid", "organizationName", "decisionTypeId",
    "protocolNumber", "submissionTimestamp", "publishTimestamp", "url", "documentUrl"]

  /** The keys `flatten` copies only when the hit has them. */
  const OptionalKeys: seq<string> := ["amount", "currency", "cpv", "afm", "contractingAuthority", "kpee", "vatIncluded"]

  /** The fixed part of `flatten`: the ten keys, the type code falling back to `type`. */
  function FlatBase(hit: Record): Record {
    map k | k in FlatKeys ::
      if k == "decisionTypeId" then Or(Get(hit, "decisionTypeId"), Get(hit, "type")) else Get(hit, k)
  }

  /** The optional keys among `keys` that `hit` holds, with the hit's values. */
  function Present(hit: Record, keys: seq<string>): Record {
    map k | k in keys && k in hit :: hit[k]
  }

  /** Copying one more key extends the copied map by that key when the hit has it. */
  lemma PresentSnoc(base: Record, hit: Record, keys: seq<string>, k: string)
    ensures base + Present(hit, keys + [k]) ==
      if k in hit then (base + Present(hit, keys))[k := hit[k]] else base + Present(hit, keys)
  {
    if k in hit {
      assert Present(hit, keys + [k]) == Present(hit, keys)[k := hit[k]];
    } else {
      assert Present(hit, keys + [k]) == Present(hit, keys);
    }
  }

  /** What `flatten(hit)` returns. */
  function Flattened(hit: Record): Record {
    FlatBase(hit) + Present(hit, OptionalKeys)
  }

  /** `flatten(hit)`: the fixed dict, then each optional key copied in a loop
      when the hit has it. */
  method Flatten(hit: Record) returns (out: Record)
    ensures out == Flattened(hit)
  {
    out := FlatBase(hit);
    var i := 0;
    while i < |OptionalKeys|
      invariant 0 <= i <= |OptionalKeys|
      invariant out == FlatBase(hit) + Present(hit, OptionalKeys[..i])
    {
      var k := OptionalKeys[i];
      PresentSnoc(FlatBase(hit), hit, OptionalKeys[..i], k);
      if k in hit {
        out := out[k := hit[k]];
      }
      assert OptionalKeys[..i + 1] == OptionalKeys[..i] + [k];
      i := i + 1;
    }
    assert OptionalKeys[..i] == OptionalKeys;
  }

  /** The ten fixed keys are always present, the type code is
      `decisionTypeId or type`, an optional key is present exactly when the hit
      has it (with the hit's value), and no other key appears. */
  lemma FlattenedKeys(hit: Record)
    ensures Flattened(hit).Keys == (set k | k in FlatKeys) + (set k | k in OptionalKeys && k in hit)
    ensures "decisionTypeId" in Flattened(hit) && Flattened(hit)["decisionTypeId"] == FirstTruthy([Get(hit, "decisionTypeId"), Get(hit, "type")])
    ensures forall k :: k in OptionalKeys && k in hit ==> Flattened(hit)[k] == hit[k]
    ensures forall k :: k in FlatKeys && k != "decisionTypeId" ==> Flattened(hit)[k] == Get(hit, k)
  {
    var base := FlatBase(hit);
    var opt := Present(hit, OptionalKeys);
    OptionalKeysNotFixed();
    assert base.Keys == set k | k in FlatKeys;
    assert opt.Keys == set k | k in OptionalKeys && k in hit;
    assert Flattened(hit) == base + opt;
    OrIsFirstTruthy(Get(hit, "decisionTypeId"), Get(hit, "type"), JNull);
    assert "decisionTypeId" in FlatKeys && "decisionTypeId" !in opt;
    forall k | k in FlatKeys && k != "decisionTypeId" ensures Flattened(hit)[k] == Get(hit, k) {
      assert k !in opt && base[k] == Get(hit, k);
    }
  }

  /** No optional key is one of the fixed ones. */
  lemma OptionalKeysNotFixed()
    ensures forall k :: k in OptionalKeys ==> k !in FlatKeys
  {
  }

  // ---------------------------------------------------------------------------
  // Response shapes

  /** `fetch_export` of the export script: the first list-valued key among
      `decisionResultList`, `decisions` and `diavgeia_decisions`; otherwise the
      `decision` (or `decisions`) entry of `decisionresults` (or
      `decisionResults`), a single object being wrapped in a list; otherwise []. */
  function ExportBatch(data: Json): (r: seq<Json>)
    ensures !data.JObj? ==> r == []
  {
    if !data.JObj? then []
    else
      var d := data.fields;
      if Get(d, "decisionResultList").JList? then Get(d, "decisionResultList").items
      else if Get(d, "decisions").JList? then Get(d, "decisions").items
      else if Get(d, "diavgeia_decisions").JList? then Get(d, "diavgeia_decisions").items
      else
        var dr := Or(Get(d, "decisionresults"), Get(d, "decisionResults"));
        if dr.JObj? then
          var dec := Or(Or(Get(dr.fields, "decision"), Get(dr.fields, "decisions")), JList([]));
          if dec.JObj? then [dec] else if dec.JList? then dec.items else []
        else []
  }

  /** The places a response can carry its decisions. */
  datatype Shape =
    | Listed(key: string)
    | Nested(outer: string, inner: string)
    | NestedSingle(outer: string, inner: string)

  predicate ValidShape(s: Shape) {
    match s
    case Listed(key) => key in {"decisionResultList", "decisions", "diavgeia_decisions"}
    case Nested(outer, inner) =>
      outer in {"decisionresults", "decisionResults"} && inner in {"decision", "decisions"}
    case NestedSingle(outer, inner) =>
      outer in {"decisionresults", "decisionResults"} && inner in {"decision", "decisions"}
  }

  /** A response that carries `items` in shape `s` and nothing else. */
  function Wrap(s: Shape, items: seq<Json>): Json
    requires s.NestedSingle? ==> |items| == 1
  {
    match s
    case Listed(key) => JObj(map[key := JList(items)])
    case Nested(outer, inner) => JObj(map[outer := JObj(map[inner := JList(items)])])
    case NestedSingle(outer, inner) => JObj(map[outer := JObj(map[inner := items[0]])])
  }

  /** The dispatch recovers the decisions from every accepted shape; a single
      nested object must be non-empty, since `{}` is falsy and falls through. */
  lemma ExportBatchWrap(s: Shape, items: seq<Json>)
    requires ValidShape(s)
    requires s.NestedSingle? ==> |items| == 1 && items[0].JObj? && items[0].fields != map[]
    ensures ExportBatch(Wrap(s, items)) == items
  {
    match s
    case Listed(key) =>
    case Nested(outer, inner) =>
      var dr := map[inner := JList(items)];
      assert Truthy(JObj(dr)) by { assert inner in dr; }
    case NestedSingle(outer, inner) =>
      var dr := map[inner := items[0]];
      assert Truthy(JObj(dr)) by { assert inner in dr; }
      assert Truthy(items[0]) by { var k :| k in items[0].fields; }
  }

  /** `decisionResultList` wins over every other key when it holds a list,
      `decisions` over all but that one, and `diavgeia_decisions` over the
      nested shapes. */
  lemma ExportBatchPriority(d: map<string, Json>, xs: seq<Json>, ys: seq<Json>, zs: seq<Json>)
    ensures ExportBatch(JObj(d["decisionResultList" := JList(xs)])) == xs
    ensures !Get(d, "decisionResultList").JList? ==> ExportBatch(JObj(d["decisions" := JList(ys)])) == ys
    ensures !Get(d, "decisionResultList").JList? && !Get(d, "decisions").JList? ==>
      ExportBatch(JObj(d["diavgeia_decisions" := JList(zs)])) == zs
  {
  }

  /** None of the three top-level keys holds a list. */
  predicate NoTopList(d: map<string, Json>) {
    !Get(d, "decisionResultList").JList? && !Get(d, "decisions").JList? && !Get(d, "diavgeia_decisions").JList?
  }

  /** A falsy `decisionresults` (absent, null, `{}`, …) falls through to
      `decisionResults`. */
  lemma ExportBatchFallsThrough(d: map<string, Json>, inner: string, items: seq<Json>)
    requires NoTopList(d) && !Truthy(Get(d, "decisionresults"))
    requires inner in {"decision", "decisions"}
    requires Get(d, "decisionResults") == JObj(map[inner := JList(items)])
    ensures ExportBatch(JObj(d)) == items
  {
    var dr := map[inner := JList(items)];
    assert Truthy(JObj(dr)) by { assert inner in dr; }
  }

  /** Without a top-level list, a response yields nothing when the nested
      entry is not an object, or when its `decision`/`decisions` value is
      neither an object nor a list. */
  lemma ExportBatchFallback(d: map<string, Json>)
    requires NoTopList(d)
    ensures var dr := Or(Get(d, "decisionresults"), Get(d, "decisionResults"));
      !dr.JObj? ==> ExportBatch(JObj(d)) == []
    ensures var dr := Or(Get(d, "decisionresults"), Get(d, "decisionResults"));
      dr.JObj? ==>
        var dec := Or(Get(dr.fields, "decision"), Get(dr.fields, "decisions"));
        !dec.JObj? && !dec.JList? ==> ExportBatch(JObj(d)) == []
  {
  }

  // ---------------------------------------------------------------------------
  // The search script's hit list, truncation and merge

  /** The exit status of `sys.exit(2)` when the response has no hit list. */
  const NoListExit := 2

  /** `data.get("decisions") or data.get("diavgeia_decisions") or []`, and exit
      status 2 when that is not a list. */
  function SearchHits(data: Record): (r: Result<seq<Json>, int>)
    ensures var v := FirstTruthy([Get(data, "decisions"), Get(data, "diavgeia_decisions"), JList([])]);
      && (r.Ok? <==> v.JList?)
      && (r.Ok? ==> r.value == v.items)
      && (r.Err? ==> r.error == NoListExit)
  {
    OrIsFirstTruthy(Get(data, "decisions"), Get(data, "diavgeia_decisions"), JList([]));
    var hits := Or(Or(Get(data, "decisions"), Get(data, "diavgeia_decisions")), JList([]));
    if hits.JList? then Ok(hits.items) else Err(NoListExit)
  }

  /** `hits[:limit] if limit and limit > 0 else hits`. */
  function Truncate<T>(hits: seq<T>, limit: int): (r: seq<T>)
    ensures limit > 0 ==> |r| == if limit < |hits| then limit else |hits|
    ensures limit <= 0 ==> r == hits
    ensures |r| <= |hits| && r == hits[..|r|]
  {
    if limit > 0 && limit < |hits| then hits[..limit] else hits
  }

  /** `{**hit, **fetch_metadata(ada)}`, or the hit itself when the metadata
      request raised (`None` here) or did not return an object. */
  function Merge(hit: Record, meta: Option<Json>): (r: Record)
    ensures meta.Some? && meta.value.JObj? ==> r.Keys == hit.Keys + meta.value.fields.Keys
    ensures meta.Some? && meta.value.JObj? ==> forall k :: k in meta.value.fields ==> r[k] == meta.value.fields[k]
    ensures forall k :: k in hit && !(meta.Some? && meta.value.JObj? && k in meta.value.fields) ==> k in r && r[k] == hit[k]
    ensures !(meta.Some? && meta.value.JObj?) ==> r == hit
  {
    if meta.Some? && meta.value.JObj? then hit + meta.value.fields else hit
  }

  /** The row loop of the search script's `main`: each hit merged with its
      metadata (`metas[i]` answers the request for hit `i`) and flattened. */
  method CollectRows(hits: seq<Record>, metas: seq<Option<Json>>) returns (rows: seq<Record>)
    requires |metas| == |hits|
    ensures |rows| == |hits|
    ensures forall i :: 0 <= i < |hits| ==> rows[i] == Flattened(Merge(hits[i], metas[i]))
  {
    rows := [];
    var i := 0;
    while i < |hits|
      invariant 0 <= i <= |hits|
      invariant |rows| == i
      invariant forall j :: 0 <= j < i ==> rows[j] == Flattened(Merge(hits[j], metas[j]))
    {
      var merged := Merge(hits[i], metas[i]);
      var flat := Flatten(merged);
      rows := rows + [flat];
      i := i + 1;
    }
  }

  // ---------------------------------------------------------------------------
  // CSV header

  /** Python's `<` on strings: code point by code point, a proper prefix first. */
  predicate StrLess(a: string, b: string) {
    (|a| < |b| && b[..|a|] == a)
    || exists i :: 0 <= i < |a| && i < |b| && a[..i] == b[..i] && a[i] < b[i]
  }

  /** `StrLess` is irreflexive. */
  lemma StrLessIrreflexive(a: string)
    ensures !StrLess(a, a)
  {
  }

  /** Two distinct strings are ordered one way or the other. */
  lemma {:induction false} StrLessTotal(a: string, b: string)
    requires a != b
    ensures StrLess(a, b) || StrLess(b, a)
  {
    var n := if |a| < |b| then |a| else |b|;
    if |a| == |b| {
      var i :| 0 <= i < |a| && a[i] != b[i];
      var j := FirstDifference(a, b, i);
      assert a[..j] == b[..j];
    } else if a[..n] != b[..n] {
      var i :| 0 <= i < n && a[i] != b[i];
      var j := FirstDifference(a, b, i);
      assert a[..j] == b[..j];
    }
  }

  /** The first index at which `a` and `b` differ, given that they differ at `i`. */
  function FirstDifference(a: string, b: string, i: nat): (j: nat)
    requires i < |a| && i < |b| && a[i] != b[i]
    ensures j <= i && a[j] != b[j] && a[..j] == b[..j]
  {
    if forall k :: 0 <= k < i ==> a[k] == b[k] then i
    else
      var k :| 0 <= k < i && a[k] != b[k];
      FirstDifference(a, b, k)
  }

  /** `StrLess` is transitive. */
  lemma StrLessTransitive(a: string, b: string, c: string)
    requires StrLess(a, b) && StrLess(b, c)
    ensures StrLess(a, c)
  {
    if |a| < |b| && b[..|a|] == a {
      PrefixThenLess(a, b, c);
    } else {
      var i :| 0 <= i < |a| && i < |b| && a[..i] == b[..i] && a[i] < b[i];
      DifferThenLess(a, b, c, i);
    }
  }

  /** A proper prefix of a string below `c` is below `c`. */
  lemma PrefixThenLess(a: string, b: string, c: string)
    requires |a| < |b| && b[..|a|] == a && StrLess(b, c)
    ensures StrLess(a, c)
  {
    if |b| < |c| && c[..|b|] == b {
      assert c[..|a|] == a;
    } else {
      var j :| 0 <= j < |b| && j < |c| && b[..j] == c[..j] && b[j] < c[j];
      if j < |a| {
        assert a[..j] == c[..j] && a[j] == b[j];
      } else {
        assert c[..|a|] == a by { assert c[..|a|] == c[..j][..|a|]; }
      }
    }
  }

  /** A string that first differs from `b` at `i`, being smaller there, is
      below whatever `b` is below. */
  lemma DifferThenLess(a: string, b: string, c: string, i: nat)
    requires i < |a| && i < |b| && a[..i] == b[..i] && a[i] < b[i] && StrLess(b, c)
    ensures StrLess(a, c)
  {
    if |b| < |c| && c[..|b|] == b {
      assert a[..i] == c[..i] && c[i] == b[i];
    } else {
      var j :| 0 <= j < |b| && j < |c| && b[..j] == c[..j] && b[j] < c[j];
      var m := if i < j then i else j;
      assert a[..m] == c[..m];
      assert a[m] < c[m];
    }
  }

  /** Strictly increasing under `StrLess`, hence without duplicates. */
  predicate StrictlySorted(s: seq<string>) {
    forall i, j :: 0 <= i < j < |s| ==> StrLess(s[i], s[j])
  }

  /** Every key of every row. */
  function KeyUnion(rows: seq<Record>): set<string> {
    set r, k | r in rows && k in r :: k
  }

  /** `s` with `k` put before the first element it is below. */
  function Insert(s: seq<string>, k: string): seq<string> {
    if s == [] then [k]
    else if StrLess(k, s[0]) then [k] + s
    else [s[0]] + Insert(s[1..], k)
  }

  /** Inserting adds just the key to the members. */
  lemma {:induction false} InsertMembers(s: seq<string>, k: string)
    ensures forall x :: x in Insert(s, k) <==> x in s || x == k
    decreases |s|
  {
    if s != [] && !StrLess(k, s[0]) {
      InsertMembers(s[1..], k);
      assert s == [s[0]] + s[1..];
    }
  }

  /** Inserting a new key into a sorted list keeps it sorted and adds just
      that key. */
  lemma {:induction false} InsertSorted(s: seq<string>, k: string)
    requires StrictlySorted(s) && k !in s
    ensures StrictlySorted(Insert(s, k)) && multiset(Insert(s, k)) == multiset(s) + multiset{k}
    decreases |s|
  {
    if s == [] {
    } else if StrLess(k, s[0]) {
      InsertBelowHead(s, k);
    } else {
      SortedTail(s);
      InsertSorted(s[1..], k);
      InsertPastHead(s, k);
    }
  }

  /** A key below the head goes first. */
  lemma InsertBelowHead(s: seq<string>, k: string)
    requires StrictlySorted(s) && s != [] && StrLess(k, s[0])
    ensures StrictlySorted(Insert(s, k)) && multiset(Insert(s, k)) == multiset(s) + multiset{k}
  {
    BelowHead(s, k);
    SortedCons(k, s);
  }

  /** A key past the head goes into the tail, which stays above the head. */
  lemma InsertPastHead(s: seq<string>, k: string)
    requires StrictlySorted(s) && s != [] && k !in s && !StrLess(k, s[0])
    requires StrictlySorted(Insert(s[1..], k)) && multiset(Insert(s[1..], k)) == multiset(s[1..]) + multiset{k}
    ensures StrictlySorted(Insert(s, k)) && multiset(Insert(s, k)) == multiset(s) + multiset{k}
  {
    StrLessTotal(k, s[0]);
    var rest := Insert(s[1..], k);
    assert Insert(s, k) == [s[0]] + rest;
    AboveHead(s, k, rest);
    SortedCons(s[0], rest);
    assert s == [s[0]] + s[1..];
    assert multiset(Insert(s, k)) == multiset([s[0]]) + multiset(rest);
  }

  /** The tail of a sorted list is sorted and above its head. */
  lemma SortedTail(s: seq<string>)
    requires StrictlySorted(s) && s != []
    ensures StrictlySorted(s[1..]) && forall x :: x in s[1..] ==> StrLess(s[0], x)
  {
    forall x | x in s[1..] ensures StrLess(s[0], x) {
      var j :| 0 <= j < |s[1..]| && s[1..][j] == x;
      assert s[j + 1] == x;
    }
  }

  /** A head below every element keeps a sorted list sorted. */
  lemma SortedCons(x: string, s: seq<string>)
    requires StrictlySorted(s) && forall y :: y in s ==> StrLess(x, y)
    ensures StrictlySorted([x] + s)
  {
    forall i, j | 0 <= i < j < |[x] + s| ensures StrLess(([x] + s)[i], ([x] + s)[j]) {
      assert ([x] + s)[j] == s[j - 1];
      if i > 0 {
        assert ([x] + s)[i] == s[i - 1];
      } else {
        assert s[j - 1] in s;
      }
    }
  }

  /** A key below the head of a sorted list is below all of it. */
  lemma BelowHead(s: seq<string>, k: string)
    requires StrictlySorted(s) && s != [] && StrLess(k, s[0])
    ensures forall y :: y in s ==> StrLess(k, y)
  {
    forall y | y in s ensures StrLess(k, y) {
      var j :| 0 <= j < |s| && s[j] == y;
      if j > 0 {
        StrLessTransitive(k, s[0], s[j]);
      }
    }
  }

  /** Inserting a key above the head into the tail keeps the head below
      everything. */
  lemma AboveHead(s: seq<string>, k: string, rest: seq<string>)
    requires StrictlySorted(s) && s != [] && StrLess(s[0], k)
    requires multiset(rest) == multiset(s[1..]) + multiset{k}
    ensures forall x :: x in rest ==> StrLess(s[0], x)
  {
    SortedTail(s);
    forall x | x in rest ensures StrLess(s[0], x) {
      assert x in multiset(rest);
      if x != k {
        assert x in multiset(s[1..]);
      }
    }
  }

  /** `sorted({k for row in rows for k in row.keys()})`: each key of the union
      once, in increasing order. */
  method SortedKeys(rows: seq<Record>) returns (keys: seq<string>)
    ensures StrictlySorted(keys)
    ensures forall k :: k in keys <==> k in KeyUnion(rows)
  {
    var pending := KeyUnion(rows);
    keys := [];
    while pending != {}
      invariant StrictlySorted(keys)
      invariant forall k :: k in keys ==> k in KeyUnion(rows) && k !in pending
      invariant forall k :: k in KeyUnion(rows) ==> k in keys || k in pending
      invariant pending <= KeyUnion(rows)
      decreases |pending|
    {
      var k :| k in pending;
      InsertSorted(keys, k);
      InsertMembers(keys, k);
      keys := Insert(keys, k);
      pending := pending - {k};
    }
  }

  /** `row.get(k, "")`. */
  function Cell(row: Record, k: string): Json {
    if k in row then row[k] else JStr("")
  }

  /** One CSV line: the row's value under each header key, or "". */
  function CsvLine(row: Record, keys: seq<string>): (line: seq<Json>)
    ensures |line| == |keys|
    ensures forall j :: 0 <= j < |keys| ==> line[j] == Cell(row, keys[j])
  {
    seq(|keys|, j requires 0 <= j < |keys| => Cell(row, keys[j]))
  }

  /** The CSV body both fetch scripts write: nothing for no rows; otherwise,
      for each row, its value under each header key or "". */
  function CsvTable(rows: seq<Record>, keys: seq<string>): (t: Option<seq<seq<Json>>>)
    ensures t.None? <==> rows == []
    ensures t.Some? ==> |t.value| == |rows|
    ensures t.Some? ==> forall i :: 0 <= i < |rows| ==> t.value[i] == CsvLine(rows[i], keys)
  {
    if rows == [] then None
    else Some(seq(|rows|, i requires 0 <= i < |rows| => CsvLine(rows[i], keys)))
  }

  /** Over a header holding every key of the rows, the table loses nothing:
      each value of each row sits in its line under its own key, and every
      other cell of the line is "". */
  lemma CsvTableLossless(rows: seq<Record>, keys: seq<string>)
    requires rows != []
    requires forall k :: k in keys <==> k in KeyUnion(rows)
    ensures forall i, k :: 0 <= i < |rows| && k in rows[i] ==>
      exists j :: 0 <= j < |keys| && keys[j] == k && CsvTable(rows, keys).value[i][j] == rows[i][k]
    ensures forall i, j :: 0 <= i < |rows| && 0 <= j < |keys| && keys[j] !in rows[i] ==>
      CsvTable(rows, keys).value[i][j] == JStr("")
  {
    var t := CsvTable(rows, keys).value;
    forall i, k | 0 <= i < |rows| && k in rows[i]
      ensures exists j :: 0 <= j < |keys| && keys[j] == k && t[i][j] == rows[i][k]
    {
      assert k in KeyUnion(rows) by { assert rows[i] in rows; }
      var j :| 0 <= j < |keys| && keys[j] == k;
      assert t[i][j] == Cell(rows[i], k);
    }
  }

  /** A written CSV file: the header and one line per row. */
  datatype CsvFile = CsvFile(header: seq<string>, lines: seq<seq<Json>>)

  /** `to_csv` and the export script's CSV block: no file for no rows;
      otherwise the sorted key union as header and one line per row. */
  method ToCsv(rows: seq<Record>) returns (r: Option<CsvFile>)
    ensures r.None? <==> rows == []
    ensures r.Some? ==> StrictlySorted(r.value.header)
    ensures r.Some? ==> forall k :: k in r.value.header <==> k in KeyUnion(rows)
    ensures r.Some? ==> CsvTable(rows, r.value.header) == Some(r.value.lines)
  {
    if rows == [] {
      return None;
    }
    var keys := SortedKeys(rows);
    var lines: seq<seq<Json>> := [];
    var i := 0;
    while i < |rows|
      invariant 0 <= i <= |rows|
      invariant |lines| == i
      invariant forall m :: 0 <= m < i ==> lines[m] == CsvLine(rows[m], keys)
    {
      lines := lines + [CsvLine(rows[i], keys)];
      i := i + 1;
    }
    assert CsvTable(rows, keys).value == lines;
    return Some(CsvFile(keys, lines));
  }
}
