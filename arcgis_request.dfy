/**
 * ArcGisRequest: the feature query of the ArcGIS REST client (`getFeatures`)
 * and the date-string normalisation that starts `convertDateTimeString`.
 *
 * The query form is a PHP array of named values. The service info (one GET,
 * decoded to objects) and the credential exchanges are replies given as
 * parameters; the query server is a sequence of decoded replies, and a POST
 * past its end is a failed transport call, which decodes to null.
 *
 * The query replies are decoded to arrays, while the expired-token test reads
 * the property `->error_message` of that array: such a read is never set, so
 * the test never passes and the refresh branch never runs. The model has no
 * such branch; the token of the query URL is the one fixed before the loop.
 */
module ArcGis {
  import opened Php

  /** The form of a query POST: the PHP array `$params`. */
  type Params = map<string, Doc>

  /** One query POST as it leaves the client: the URL and the form. */
  datatype Post = Post(url: string, form: Params)

  /** The most query POSTs one call makes. */
  const MaxRequests := 50

  /** `isset($params[$k])`. */
  predicate Present(params: Params, k: string)
  {
    k in params && params[k] != Null
  }

  /** `$params[$k]`, null when missing. */
  function Param(params: Params, k: string): Doc
  {
    if k in params then params[k] else Null
  }

  // ---------------------------------------------------------------------------
  // Defaults

  /** `$params[$k] = isset($params[$k]) ? $params[$k] : $v`. */
  function Default(params: Params, k: string, v: Doc): Params
  {
    params[k := if Present(params, k) then params[k] else v]
  }

  /** The key `k` holds the caller's value when one was set, else the default `v`. */
  predicate Defaulted(before: Params, after: Params, k: string, v: Doc)
  {
    k in after && after[k] == (if Present(before, k) then before[k] else v)
  }

  /**
   * The three defaults of a query: `f=json`, 1000 records per page, offset 0.
   * A value the caller set is kept, and every other field is left alone.
   */
  function WithDefaults(params: Params): (r: Params)
    ensures Defaulted(params, r, "f", Str("json"))
    ensures Defaulted(params, r, "resultRecordCount", Num(1000))
    ensures Defaulted(params, r, "resultOffset", Num(0))
    ensures r.Keys == params.Keys + {"f", "resultRecordCount", "resultOffset"}
    ensures forall k :: k in params && k != "f" && k != "resultRecordCount" && k != "resultOffset" ==> r[k] == params[k]
  {
    Default(Default(Default(params, "f", Str("json")), "resultRecordCount", Num(1000)), "resultOffset", Num(0))
  }

  // ---------------------------------------------------------------------------
  // The pass over the service's fields: outFields and the coded-value domains

  /** `$field->name` as a string, the entry merged into `outFields` and joined by implode. */
  function FieldName(field: Doc): string
  {
    AsString(Get(field, "name"))
  }

  /** The key `$x[$field->name]` files a field under: its name cast as an array key. */
  function FieldKey(field: Doc): string
  {
    ArrayKey(Get(field, "name"))
  }

  /** A field whose upper-cased type is the object-id or the global-id type. */
  predicate IsIdField(field: Doc)
  {
    var t := Upper(AsString(Get(field, "type")));
    t == "ESRIFIELDTYPEOID" || t == "ESRIFIELDTYPEGLOBALID"
  }

  /** The names of the id fields, in field order. */
  function IdNames(fields: seq<Doc>): seq<string>
  {
    if fields == [] then []
    else IdNames(fields[..|fields| - 1]) + (if IsIdField(fields[|fields| - 1]) then [FieldName(fields[|fields| - 1])] else [])
  }

  /** `implode(',', array_unique(array_merge(explode(',', $outFields), [$name])))`. */
  function AddOutField(outFields: Doc, name: string): Doc
  {
    Str(Implode(',', Dedup(Explode(',', AsString(outFields)) + [name])))
  }

  /** The form after the foreach over the given fields: each id field rewrites `outFields`. */
  function PrePass(fields: seq<Doc>, params: Params): Params
  {
    if fields == [] then params
    else
      var prev := PrePass(fields[..|fields| - 1], params);
      var field := fields[|fields| - 1];
      if IsIdField(field) then prev["outFields" := AddOutField(Param(prev, "outFields"), FieldName(field))] else prev
  }

  /** The pre-pass over one more field. */
  lemma PrePassNext(fields: seq<Doc>, params: Params, i: nat)
    requires i < |fields|
    ensures var prev := PrePass(fields[..i], params);
      PrePass(fields[..i + 1], params)
        == if IsIdField(fields[i]) then prev["outFields" := AddOutField(Param(prev, "outFields"), FieldName(fields[i]))] else prev
  {
    assert fields[..i + 1][..i] == fields[..i];
  }

  /** The `outFields` list the pre-pass leaves when the service has id fields. */
  function MergedOutFields(params: Params, names: seq<string>): seq<string>
  {
    Dedup(Explode(',', AsString(Param(params, "outFields"))) + names)
  }

  /** That list joined by commas. */
  function JoinedOutFields(params: Params, names: seq<string>): Doc
  {
    Str(Implode(',', MergedOutFields(params, names)))
  }

  /**
   * Without an id field the form is unchanged. Otherwise only `outFields`
   * changes: it becomes the caller's fields followed by the id fields' names,
   * each value once, joined by commas.
   */
  lemma {:induction false} PrePassSpec(fields: seq<Doc>, params: Params)
    requires forall i :: 0 <= i < |fields| ==> ',' !in FieldName(fields[i])
    ensures IdNames(fields) == [] ==> PrePass(fields, params) == params
    ensures IdNames(fields) != [] ==>
      PrePass(fields, params) == params["outFields" := JoinedOutFields(params, IdNames(fields))]
    decreases |fields|
  {
    if fields != [] {
      var init := fields[..|fields| - 1];
      PrePassSpec(init, params);
      if IsIdField(fields[|fields| - 1]) {
        IdNamesHaveNoComma(init);
        PrePassAdd(fields, params);
      } else {
        PrePassSkip(fields, params);
      }
    }
  }

  /** A field that is no id field leaves the form and the id names as they were. */
  lemma PrePassSkip(fields: seq<Doc>, params: Params)
    requires fields != [] && !IsIdField(fields[|fields| - 1])
    ensures PrePass(fields, params) == PrePass(fields[..|fields| - 1], params)
    ensures IdNames(fields) == IdNames(fields[..|fields| - 1])
  {
    assert IdNames(fields) == IdNames(fields[..|fields| - 1]) + [];
  }

  /** An id field merges its name into the `outFields` the earlier fields left. */
  lemma PrePassAdd(fields: seq<Doc>, params: Params)
    requires fields != [] && IsIdField(fields[|fields| - 1])
    requires var init := fields[..|fields| - 1];
      && (forall i :: 0 <= i < |IdNames(init)| ==> ',' !in IdNames(init)[i])
      && (IdNames(init) == [] ==> PrePass(init, params) == params)
      && (IdNames(init) != [] ==> PrePass(init, params) == params["outFields" := JoinedOutFields(params, IdNames(init))])
    ensures PrePass(fields, params) == params["outFields" := JoinedOutFields(params, IdNames(fields))]
  {
    var init := fields[..|fields| - 1];
    var name := FieldName(fields[|fields| - 1]);
    var prev := PrePass(init, params);
    var joined := JoinedOutFields(params, IdNames(fields));
    assert PrePass(fields, params) == prev["outFields" := AddOutField(Param(prev, "outFields"), name)];
    AddedName(fields, params);
    if IdNames(init) != [] {
      Overwrite(params, "outFields", JoinedOutFields(params, IdNames(init)), joined);
    }
  }

  /** Writing a key twice keeps the second value. */
  lemma Overwrite(params: Params, k: string, first: Doc, second: Doc)
    ensures params[k := first][k := second] == params[k := second]
  {
  }

  /** The `outFields` an id field writes: the earlier list with its name merged in. */
  lemma AddedName(fields: seq<Doc>, params: Params)
    requires fields != [] && IsIdField(fields[|fields| - 1])
    requires var init := fields[..|fields| - 1];
      && (forall i :: 0 <= i < |IdNames(init)| ==> ',' !in IdNames(init)[i])
      && (IdNames(init) == [] ==> PrePass(init, params) == params)
      && (IdNames(init) != [] ==> PrePass(init, params) == params["outFields" := JoinedOutFields(params, IdNames(init))])
    ensures AddOutField(Param(PrePass(fields[..|fields| - 1], params), "outFields"), FieldName(fields[|fields| - 1]))
         == JoinedOutFields(params, IdNames(fields))
  {
    var init := fields[..|fields| - 1];
    var name := FieldName(fields[|fields| - 1]);
    assert IdNames(fields) == IdNames(init) + [name];
    if IdNames(init) == [] {
      assert IdNames(fields) == [name];
    } else {
      assert Param(PrePass(init, params), "outFields") == JoinedOutFields(params, IdNames(init));
      MergeOneMore(params, IdNames(init), name);
    }
  }

  /** Adding one more id field to merged fields merges it after the others. */
  lemma MergeOneMore(params: Params, names: seq<string>, name: string)
    requires forall i :: 0 <= i < |names| ==> ',' !in names[i]
    ensures AddOutField(JoinedOutFields(params, names), name) == JoinedOutFields(params, names + [name])
  {
    var callers := Explode(',', AsString(Param(params, "outFields")));
    var merged := MergedOutFields(params, names);
    MergedHasNoComma(params, names);
    ExplodeImplode(',', merged);
    DedupAppend(callers + names, [name]);
    assert callers + names + [name] == callers + (names + [name]);
  }

  /** The merged list is not empty, and no entry holds a comma. */
  lemma MergedHasNoComma(params: Params, names: seq<string>)
    requires forall i :: 0 <= i < |names| ==> ',' !in names[i]
    ensures |MergedOutFields(params, names)| >= 1
    ensures forall i :: 0 <= i < |MergedOutFields(params, names)| ==> ',' !in MergedOutFields(params, names)[i]
  {
    var callers := Explode(',', AsString(Param(params, "outFields")));
    var merged := MergedOutFields(params, names);
    DedupSpec(callers + names);
    forall i | 0 <= i < |merged| ensures ',' !in merged[i] {
      assert merged[i] in callers + names;
    }
  }

  /** The id fields' names are names of fields. */
  lemma {:induction false} IdNamesHaveNoComma(fields: seq<Doc>)
    requires forall i :: 0 <= i < |fields| ==> ',' !in FieldName(fields[i])
    ensures forall i :: 0 <= i < |IdNames(fields)| ==> ',' !in IdNames(fields)[i]
    decreases |fields|
  {
    if fields != [] {
      IdNamesHaveNoComma(fields[..|fields| - 1]);
    }
  }

  /**
   * The merged `outFields`: no field twice, exactly the caller's fields and
   * the id fields, and the caller's fields first in their own order.
   */
  lemma MergedOutFieldsSpec(params: Params, names: seq<string>)
    ensures var callers := Explode(',', AsString(Param(params, "outFields")));
      && NoDuplicates(MergedOutFields(params, names))
      && (forall x :: x in MergedOutFields(params, names) <==> x in callers || x in names)
      && Dedup(callers) <= MergedOutFields(params, names)
  {
    var callers := Explode(',', AsString(Param(params, "outFields")));
    DedupSpec(callers + names);
    DedupPrefix(callers, names);
  }

  /** `isset($field->domain) && isset($field->domain->codedValues)`. */
  predicate HasCodedValues(field: Doc)
  {
    Isset(field, "domain") && Isset(Get(field, "domain"), "codedValues")
  }

  /** The coded values the inner foreach visits. */
  function CodedValues(field: Doc): seq<Doc>
  {
    Elements(Get(Get(field, "domain"), "codedValues"))
  }

  /** The assignments `[$code] = $name` of the inner foreach, in order. */
  function CodePairs(values: seq<Doc>): (pairs: seq<(string, Doc)>)
    ensures |pairs| == |values|
    ensures forall i :: 0 <= i < |values| ==> pairs[i] == (ArrayKey(Get(values[i], "code")), Get(values[i], "name"))
  {
    seq(|values|, i requires 0 <= i < |values| => (ArrayKey(Get(values[i], "code")), Get(values[i], "name")))
  }

  /** One field's code → name table. */
  function CodeTable(field: Doc): map<string, Doc>
  {
    Assoc(CodePairs(CodedValues(field)))
  }

  /**
   * A code is in a field's table exactly when one of its coded values has
   * it, and it maps to the name of the last such value.
   */
  lemma CodeTableSpec(field: Doc, code: string)
    ensures var values := CodedValues(field);
      && (code in CodeTable(field) <==> exists i :: 0 <= i < |values| && ArrayKey(Get(values[i], "code")) == code)
      && (forall i :: 0 <= i < |values| && ArrayKey(Get(values[i], "code")) == code
                  && (forall j :: i < j < |values| ==> ArrayKey(Get(values[j], "code")) != code)
            ==> CodeTable(field)[code] == Get(values[i], "name"))
  {
    var values := CodedValues(field);
    var pairs := CodePairs(values);
    AssocLastWins(pairs, code);
    if exists i :: 0 <= i < |pairs| && pairs[i].0 == code {
      var i :| 0 <= i < |pairs| && pairs[i].0 == code;
      assert ArrayKey(Get(values[i], "code")) == code;
    }
    forall i | 0 <= i < |values| && ArrayKey(Get(values[i], "code")) == code
                && (forall j :: i < j < |values| ==> ArrayKey(Get(values[j], "code")) != code)
      ensures Assoc(pairs)[code] == Get(values[i], "name")
    {
      assert pairs[i].0 == code;
      assert forall j :: i < j < |pairs| ==> pairs[j].0 != code;
    }
  }

  /**
   * `$domainKey` after the foreach over the given fields: undefined (None)
   * until a field with coded values comes by; each such field files its
   * table under its name, replacing an earlier table of that name.
   */
  function DomainKey(fields: seq<Doc>): Option<map<string, map<string, Doc>>>
  {
    if fields == [] then None
    else
      var prev := DomainKey(fields[..|fields| - 1]);
      var field := fields[|fields| - 1];
      if HasCodedValues(field) then Some(prev.GetOr(map[])[FieldKey(field) := CodeTable(field)]) else prev
  }

  /** The domains after one more field. */
  lemma DomainKeyNext(fields: seq<Doc>, i: nat)
    requires i < |fields|
    ensures var prev := DomainKey(fields[..i]);
      DomainKey(fields[..i + 1])
        == if HasCodedValues(fields[i]) then Some(prev.GetOr(map[])[FieldKey(fields[i]) := CodeTable(fields[i])]) else prev
  {
    assert fields[..i + 1][..i] == fields[..i];
  }

  /** The domains are defined exactly when some field has coded values. */
  lemma {:induction false} DomainKeyDefined(fields: seq<Doc>)
    ensures DomainKey(fields).Some? <==> exists i :: 0 <= i < |fields| && HasCodedValues(fields[i])
    decreases |fields|
  {
    if fields != [] {
      var init := fields[..|fields| - 1];
      DomainKeyDefined(init);
      if exists i :: 0 <= i < |fields| && HasCodedValues(fields[i]) {
        var i :| 0 <= i < |fields| && HasCodedValues(fields[i]);
        if i < |init| { assert init[i] == fields[i]; }
      }
      if exists i :: 0 <= i < |init| && HasCodedValues(init[i]) {
        var i :| 0 <= i < |init| && HasCodedValues(init[i]);
        assert fields[i] == init[i];
      }
    }
  }

  /** The field files a table under `name`. */
  predicate FiledAs(field: Doc, name: string)
  {
    HasCodedValues(field) && FieldKey(field) == name
  }

  /** A name is in the domains exactly when a field with coded values has it. */
  lemma {:induction false} DomainKeyNames(fields: seq<Doc>, name: string)
    ensures name in DomainKey(fields).GetOr(map[]) <==> exists i :: 0 <= i < |fields| && FiledAs(fields[i], name)
    decreases |fields|
  {
    if fields != [] {
      var init := fields[..|fields| - 1];
      DomainKeyNames(init, name);
      if exists i :: 0 <= i < |fields| && FiledAs(fields[i], name) {
        var i :| 0 <= i < |fields| && FiledAs(fields[i], name);
        if i < |init| { assert FiledAs(init[i], name); }
      }
      if exists i :: 0 <= i < |init| && FiledAs(init[i], name) {
        var i :| 0 <= i < |init| && FiledAs(init[i], name);
        assert fields[i] == init[i];
      }
    }
  }

  /** A name holds the table of the last field with coded values filed under it. */
  lemma {:induction false} DomainKeyLast(fields: seq<Doc>, name: string, i: nat)
    requires i < |fields| && FiledAs(fields[i], name)
    requires forall j :: i < j < |fields| ==> !FiledAs(fields[j], name)
    ensures DomainKey(fields).Some? && name in DomainKey(fields).value
    ensures DomainKey(fields).value[name] == CodeTable(fields[i])
    decreases |fields|
  {
    if i < |fields| - 1 {
      var init := fields[..|fields| - 1];
      assert init[i] == fields[i];
      assert forall j :: i < j < |init| ==> init[j] == fields[j];
      DomainKeyLast(init, name, i);
      assert !FiledAs(fields[|fields| - 1], name);
    }
  }

  // ---------------------------------------------------------------------------
  // Fields re-keyed by name

  /** The assignments `$fieldInfos[$field->name] = $field`, in order. */
  function NamePairs(fields: seq<Doc>): (pairs: seq<(string, Doc)>)
    ensures |pairs| == |fields|
    ensures forall i :: 0 <= i < |fields| ==> pairs[i] == (FieldKey(fields[i]), fields[i])
  {
    seq(|fields|, i requires 0 <= i < |fields| => (FieldKey(fields[i]), fields[i]))
  }

  /** The fields keyed by name. */
  function ByName(fields: seq<Doc>): map<string, Doc>
  {
    Assoc(NamePairs(fields))
  }

  /** A name is a key exactly when some field has it; it holds the last field of that name. */
  lemma ByNameSpec(fields: seq<Doc>, name: string)
    ensures name in ByName(fields) <==> exists i :: 0 <= i < |fields| && FieldKey(fields[i]) == name
    ensures forall i :: 0 <= i < |fields| && FieldKey(fields[i]) == name
                     && (forall j :: i < j < |fields| ==> FieldKey(fields[j]) != name)
              ==> ByName(fields)[name] == fields[i]
  {
    var pairs := NamePairs(fields);
    AssocLastWins(pairs, name);
    if exists i :: 0 <= i < |pairs| && pairs[i].0 == name {
      var i :| 0 <= i < |pairs| && pairs[i].0 == name;
      assert FieldKey(fields[i]) == name;
    }
    forall i | 0 <= i < |fields| && FieldKey(fields[i]) == name
               && (forall j :: i < j < |fields| ==> FieldKey(fields[j]) != name)
      ensures Assoc(pairs)[name] == fields[i]
    {
      assert pairs[i].0 == name;
      assert forall j :: i < j < |pairs| ==> pairs[j].0 != name;
    }
  }

  // ---------------------------------------------------------------------------
  // How one query reply is read

  /** The reply's features when they form an array (a list or an object), else none. */
  function Features(d: Doc): seq<Doc>
  {
    var f := Get(d, "features");
    if f.List? || f.Object? then Elements(f) else []
  }

  /** `$featureCount`. */
  function FeatureCount(d: Doc): nat
  {
    |Features(d)|
  }

  /** The collected result: the first page with features, all features so far, its fields by name. */
  datatype FeatureSet = FeatureSet(page: Doc, features: seq<Doc>, fields: map<string, Doc>)

  /** The query reply `i`; a failed call past the end of the server's replies. */
  function PageAt(pages: seq<Doc>, i: nat): Doc
  {
    if i < |pages| then pages[i] else Null
  }

  /** The first `n` query replies. */
  function Pages(pages: seq<Doc>, n: nat): (rs: seq<Doc>)
    ensures |rs| == n
  {
    if n == 0 then [] else Pages(pages, n - 1) + [PageAt(pages, n - 1)]
  }

  /** All features of the given replies, in arrival order. */
  function AllFeatures(rs: seq<Doc>): seq<Doc>
  {
    if rs == [] then [] else AllFeatures(rs[..|rs| - 1]) + Features(rs[|rs| - 1])
  }

  /** The first reply that has features. */
  function FirstWithFeatures(rs: seq<Doc>): (r: Option<nat>)
    ensures r.Some? ==> r.value < |rs| && FeatureCount(rs[r.value]) > 0
    ensures r.Some? ==> forall j :: 0 <= j < r.value ==> FeatureCount(rs[j]) == 0
    ensures r.None? ==> forall j :: 0 <= j < |rs| ==> FeatureCount(rs[j]) == 0
  {
    if rs == [] then None
    else
      var prev := FirstWithFeatures(rs[..|rs| - 1]);
      assert forall j :: 0 <= j < |rs| - 1 ==> rs[..|rs| - 1][j] == rs[j];
      if prev.Some? then prev
      else if FeatureCount(rs[|rs| - 1]) > 0 then Some(|rs| - 1)
      else None
  }

  /**
   * What the given replies collect: nothing until a reply has features; then
   * that reply with its fields keyed by name and every feature received.
   */
  function Gathered(rs: seq<Doc>): Option<FeatureSet>
  {
    match FirstWithFeatures(rs)
    case None => None
    case Some(i) => Some(FeatureSet(rs[i], AllFeatures(rs), ByName(Elements(Get(rs[i], "fields")))))
  }

  /** The form posted after the given replies: the offset moved on by the features received. */
  function FormAt(params: Params, rs: seq<Doc>): Params
  {
    if rs == [] then params
    else params["resultOffset" := Num(DocToInt(Param(params, "resultOffset")) + |AllFeatures(rs)|)]
  }

  /** The POSTs of the first `n` passes. */
  function Posts(pages: seq<Doc>, url: string, params: Params, n: nat): (sent: seq<Post>)
    ensures |sent| == n
  {
    if n == 0 then [] else Posts(pages, url, params, n - 1) + [Post(url, FormAt(params, Pages(pages, n - 1)))]
  }

  /** Post j carries the offset reached after the first j replies. */
  lemma {:induction false} PostAt(pages: seq<Doc>, url: string, params: Params, n: nat, j: nat)
    requires j < n
    ensures Posts(pages, url, params, n)[j] == Post(url, FormAt(params, Pages(pages, j)))
    decreases n
  {
    if j < n - 1 {
      PostAt(pages, url, params, n - 1, j);
    }
  }

  /** An empty reply adds no features. */
  lemma {:induction false} NoFeatures(rs: seq<Doc>)
    requires forall j :: 0 <= j < |rs| ==> FeatureCount(rs[j]) == 0
    ensures AllFeatures(rs) == []
    decreases |rs|
  {
    if rs != [] {
      NoFeatures(rs[..|rs| - 1]);
    }
  }

  /** The paging loop's variables between two passes. */
  datatype Pass = Pass(results: Option<FeatureSet>, params: Params, requestCount: nat, keepGoing: bool)

  /** One pass: merge the reply's features, move the offset on, count the POST and decide whether to go on. */
  function Step(p: Pass, response: Doc): Pass
  {
    var featureCount := FeatureCount(response);
    var results :=
      if p.results.Some? && featureCount > 0 then Some(p.results.value.(features := p.results.value.features + Features(response)))
      else if featureCount > 0 then Some(FeatureSet(response, Features(response), ByName(Elements(Get(response, "fields")))))
      else p.results;
    var offset := DocToInt(Param(p.params, "resultOffset")) + featureCount;
    Pass(results, p.params["resultOffset" := Num(offset)], p.requestCount + 1,
         Isset(response, "exceededTransferLimit") && p.requestCount + 1 < MaxRequests)
  }

  /**
   * Where the paging loop stands after `k` passes: the results and the form
   * are those of the first `k` replies, the loop goes on only after a reply
   * that exceeded the transfer limit and below 50 POSTs, and the POSTs are
   * those of the passes.
   */
  ghost predicate Paging(pages: seq<Doc>, url: string, params: Params, k: nat, p: Pass, sent: seq<Post>)
  {
    && k == |sent| == p.requestCount <= MaxRequests
    && p.results == Gathered(Pages(pages, k))
    && p.params == FormAt(params, Pages(pages, k))
    && (p.keepGoing <==> k == 0 || (Isset(PageAt(pages, k - 1), "exceededTransferLimit") && k < MaxRequests))
    && Exceeded(pages, k - 1)
    && sent == Posts(pages, url, params, k)
  }

  /** Each of the first `n` replies exceeded the transfer limit. */
  predicate Exceeded(pages: seq<Doc>, n: int)
  {
    forall j :: 0 <= j < n ==> Isset(PageAt(pages, j), "exceededTransferLimit")
  }

  /** A pass that goes on adds one more reply that exceeded the transfer limit. */
  lemma ExceededStep(pages: seq<Doc>, k: nat)
    requires Exceeded(pages, k - 1) && (k == 0 || Isset(PageAt(pages, k - 1), "exceededTransferLimit"))
    ensures Exceeded(pages, k)
  {
  }

  /** A pass keeps the paging loop's account. */
  lemma PagingStep(pages: seq<Doc>, url: string, params: Params, k: nat, p: Pass, sent: seq<Post>)
    requires Paging(pages, url, params, k, p, sent) && p.keepGoing
    ensures Paging(pages, url, params, k + 1, Step(p, PageAt(pages, k)), sent + [Post(url, p.params)])
  {
    var p' := Step(p, PageAt(pages, k));
    StepResults(pages, k, p);
    StepForm(pages, params, k, p);
    assert sent + [Post(url, p.params)] == Posts(pages, url, params, k + 1);
    ExceededStep(pages, k);
  }

  /** The results of a pass are those gathered from one more reply. */
  lemma StepResults(pages: seq<Doc>, k: nat, p: Pass)
    requires p.results == Gathered(Pages(pages, k))
    ensures Step(p, PageAt(pages, k)).results == Gathered(Pages(pages, k + 1))
  {
    assert Pages(pages, k + 1) == Pages(pages, k) + [PageAt(pages, k)];
    GatheredSnoc(Pages(pages, k), PageAt(pages, k));
  }

  /** The form of a pass is the one reached after one more reply. */
  lemma StepForm(pages: seq<Doc>, params: Params, k: nat, p: Pass)
    requires p.params == FormAt(params, Pages(pages, k))
    ensures Step(p, PageAt(pages, k)).params == FormAt(params, Pages(pages, k + 1))
  {
    assert Pages(pages, k + 1) == Pages(pages, k) + [PageAt(pages, k)];
    FormAtSnoc(params, Pages(pages, k), PageAt(pages, k));
  }

  /** One more reply extends the collected results by its features. */
  lemma GatheredSnoc(rs: seq<Doc>, r: Doc)
    ensures var g := Gathered(rs);
      Gathered(rs + [r]) ==
        if g.Some? && FeatureCount(r) > 0 then Some(g.value.(features := g.value.features + Features(r)))
        else if FeatureCount(r) > 0 then Some(FeatureSet(r, Features(r), ByName(Elements(Get(r, "fields")))))
        else g
  {
    var rs' := rs + [r];
    assert rs'[..|rs|] == rs;
    assert AllFeatures(rs') == AllFeatures(rs) + Features(r);
    if FeatureCount(r) == 0 {
      assert AllFeatures(rs') == AllFeatures(rs);
    }
    match FirstWithFeatures(rs)
    case Some(i) =>
      assert FirstWithFeatures(rs') == Some(i);
      assert rs'[i] == rs[i];
    case None =>
      if FeatureCount(r) > 0 {
        assert FirstWithFeatures(rs') == Some(|rs|);
        NoFeatures(rs);
        assert AllFeatures(rs') == Features(r);
      } else {
        assert FirstWithFeatures(rs') == None;
      }
  }

  /** One more reply moves the posted offset on by its feature count. */
  lemma FormAtSnoc(params: Params, rs: seq<Doc>, r: Doc)
    ensures var before := FormAt(params, rs);
      FormAt(params, rs + [r])
        == before["resultOffset" := Num(DocToInt(Param(before, "resultOffset")) + FeatureCount(r))]
  {
    assert (rs + [r])[..|rs|] == rs;
  }

  /**
   * What a finished paging loop has to show: between 1 and 50 POSTs, every
   * reply but the last exceeded the transfer limit, the last did not or the
   * cap was reached, the results and the final form are those of the
   * replies, and the POSTs are those of the passes.
   */
  ghost predicate Queried(pages: seq<Doc>, url: string, params: Params, results: Option<FeatureSet>, form: Params, sent: seq<Post>)
  {
    var n := |sent|;
    && 1 <= n <= MaxRequests
    && Exceeded(pages, n - 1)
    && (n == MaxRequests || !Isset(PageAt(pages, n - 1), "exceededTransferLimit"))
    && results == Gathered(Pages(pages, n))
    && form == FormAt(params, Pages(pages, n))
    && sent == Posts(pages, url, params, n)
  }

  /** When the loop stops, its account is Queried's. */
  lemma PagingOutcome(pages: seq<Doc>, url: string, params: Params, k: nat, p: Pass, sent: seq<Post>)
    requires Paging(pages, url, params, k, p, sent) && !p.keepGoing
    ensures Queried(pages, url, params, p.results, p.params, sent)
  {
  }

  /**
   * The final offset is the initial one plus every feature received, and the
   * features are those of the replies in arrival order, the first reply with
   * features giving the rest of the result.
   */
  lemma GatheredSpec(params: Params, rs: seq<Doc>)
    requires rs != []
    ensures Param(FormAt(params, rs), "resultOffset") == Num(DocToInt(Param(params, "resultOffset")) + |AllFeatures(rs)|)
    ensures Gathered(rs).None? <==> AllFeatures(rs) == []
    ensures Gathered(rs).Some? ==> Gathered(rs).value.features == AllFeatures(rs)
  {
    if Gathered(rs).Some? {
      var i := FirstWithFeatures(rs).value;
      AllFeaturesInclude(rs, i);
    } else {
      NoFeatures(rs);
    }
  }

  /** The features of the first `k` replies begin all the features. */
  lemma {:induction false} AllFeaturesPrefix(rs: seq<Doc>, k: nat)
    requires k <= |rs|
    ensures |AllFeatures(rs[..k])| <= |AllFeatures(rs)|
    ensures AllFeatures(rs)[..|AllFeatures(rs[..k])|] == AllFeatures(rs[..k])
    decreases |rs|
  {
    if k < |rs| {
      var init := rs[..|rs| - 1];
      AllFeaturesPrefix(init, k);
      assert init[..k] == rs[..k];
      var a, n := AllFeatures(init), |AllFeatures(rs[..k])|;
      assert AllFeatures(rs) == a + Features(rs[|rs| - 1]);
      assert (a + Features(rs[|rs| - 1]))[..n] == a[..n];
    } else {
      assert rs[..k] == rs;
    }
  }

  /**
   * The features of every reply occur in all the features, as one block
   * placed after the features of the replies before it.
   */
  lemma AllFeaturesInclude(rs: seq<Doc>, i: nat)
    requires i < |rs|
    ensures |AllFeatures(rs)| >= FeatureCount(rs[i])
    ensures var before := |AllFeatures(rs[..i])|;
      && before + FeatureCount(rs[i]) <= |AllFeatures(rs)|
      && AllFeatures(rs)[before..before + FeatureCount(rs[i])] == Features(rs[i])
  {
    var p := rs[..i + 1];
    AllFeaturesPrefix(rs, i + 1);
    assert p[..|p| - 1] == rs[..i] && p[|p| - 1] == rs[i];
    var a, f := AllFeatures(rs[..i]), Features(rs[i]);
    assert AllFeatures(p) == a + f;
    assert (a + f)[|a|..|a| + |f|] == f;
  }

  /** The results of a call: the collected features, the domains and the service info with its fields by name. */
  datatype FeatureQuery = FeatureQuery(
    results: Option<FeatureSet>,
    domains: Option<map<string, map<string, Doc>>>,
    info: Doc,
    infoFields: map<string, Doc>)

  /** The token after a credential exchange: the reply's token when it has one, else the old one. */
  function Granted(token: Doc, reply: Doc): Doc
  {
    if Isset(reply, "token") then Get(reply, "token") else token
  }

  /** The reply to credential exchange `i`; a failed call (null) past the end. */
  function GrantAt(grants: seq<Doc>, i: nat): Doc
  {
    if i < |grants| then grants[i] else Null
  }

  // ---------------------------------------------------------------------------
  // The client

  class Client {
    const serverUrl: string
    const tokenUrl: string
    const username: string
    const password: string
    /** `$this->token`: null until an exchange returns one. */
    var token: Doc
    /** How many credential exchanges this client has made. */
    var exchanges: nat

    constructor (serverUrl: string, tokenUrl: string, username: string, password: string)
      ensures this.serverUrl == serverUrl && this.tokenUrl == tokenUrl
      ensures this.username == username && this.password == password
      ensures token == Null && exchanges == 0
    {
      this.serverUrl := serverUrl;
      this.tokenUrl := tokenUrl;
      this.username := username;
      this.password := password;
      token := Null;
      exchanges := 0;
    }

    /** Exchange the credentials; keep the old token when the reply carries none. */
    method GenerateToken(reply: Doc)
      modifies this
      ensures token == Granted(old(token), reply) && exchanges == old(exchanges) + 1
    {
      if Isset(reply, "token") {
        token := Get(reply, "token");
      }
      exchanges := exchanges + 1;
    }

    /** Make sure a token is held: exchange the credentials when it is falsy. */
    method EnsureToken(reply: Doc)
      modifies this
      ensures token == (if Truthy(old(token)) then old(token) else Granted(old(token), reply))
      ensures exchanges == old(exchanges) + (if Truthy(old(token)) then 0 else 1)
    {
      if !Truthy(token) {
        GenerateToken(reply);
      }
    }

    /** The per-field foreach of `getFeatures`: rewrite `outFields` and build the domains. */
    method ReadFields(fields: seq<Doc>, params: Params) returns (prepared: Params, domains: Option<map<string, map<string, Doc>>>)
      ensures prepared == PrePass(fields, params)
      ensures domains == DomainKey(fields)
    {
      prepared, domains := params, None;
      for i := 0 to |fields|
        invariant prepared == PrePass(fields[..i], params)
        invariant domains == DomainKey(fields[..i])
      {
        var field := fields[i];
        PrePassNext(fields, params, i);
        DomainKeyNext(fields, i);
        if IsIdField(field) {
          prepared := prepared["outFields" := AddOutField(Param(prepared, "outFields"), FieldName(field))];
        }
        if HasCodedValues(field) {
          var table := FillTable(CodedValues(field));
          domains := Some(domains.GetOr(map[])[FieldKey(field) := table]);
        }
      }
      assert fields[..|fields|] == fields;
    }

    /** The inner foreach: file each coded value's name under its code. */
    method FillTable(values: seq<Doc>) returns (table: map<string, Doc>)
      ensures table == Assoc(CodePairs(values))
    {
      table := map[];
      for i := 0 to |values|
        invariant table == Assoc(CodePairs(values[..i]))
      {
        assert CodePairs(values[..i + 1])[..i] == CodePairs(values[..i]);
        table := table[ArrayKey(Get(values[i], "code")) := Get(values[i], "name")];
      }
      assert values[..|values|] == values;
    }

    /** `foreach ($fields as $field) { $fieldInfos[$field->name] = $field; }`. */
    method KeyByName(fields: seq<Doc>) returns (fieldInfos: map<string, Doc>)
      ensures fieldInfos == ByName(fields)
    {
      fieldInfos := map[];
      for i := 0 to |fields|
        invariant fieldInfos == Assoc(NamePairs(fields[..i]))
      {
        assert NamePairs(fields[..i + 1])[..i] == NamePairs(fields[..i]);
        fieldInfos := fieldInfos[FieldKey(fields[i]) := fields[i]];
      }
      assert fields[..|fields|] == fields;
    }

    /**
     * One pass of the query loop: POST the form, merge the reply's features
     * (the first reply with features becomes the result, its fields keyed by
     * name), move the offset on by the feature count, count the POST, and go
     * on only when the reply exceeded the transfer limit and fewer than 50
     * POSTs were made.
     */
    method FetchFeatures(url: string, pages: seq<Doc>, k: nat, p: Pass, ghost params: Params, ghost sent: seq<Post>)
      returns (next: Pass, post: Post)
      requires Paging(pages, url, params, k, p, sent) && p.keepGoing
      ensures post == Post(url, p.params)
      ensures Paging(pages, url, params, k + 1, next, sent + [post])
    {
      post := Post(url, p.params);
      var response := PageAt(pages, k);
      var featureCount := FeatureCount(response);
      var results := p.results;
      if results.Some? && featureCount > 0 {
        results := Some(results.value.(features := results.value.features + Features(response)));
      } else if featureCount > 0 {
        var fieldInfos := KeyByName(Elements(Get(response, "fields")));
        results := Some(FeatureSet(response, Features(response), fieldInfos));
      }
      var offset := DocToInt(Param(p.params, "resultOffset")) + featureCount;
      var requestCount := p.requestCount + 1;
      var keepGoing := Isset(response, "exceededTransferLimit") && requestCount < MaxRequests;
      next := Pass(results, p.params["resultOffset" := Num(offset)], requestCount, keepGoing);
      assert next == Step(p, response);
      PagingStep(pages, url, params, k, p, sent);
    }

    /** The do-while paging loop of `getFeatures`, from the prepared form. */
    method Query(url: string, params: Params, pages: seq<Doc>) returns (results: Option<FeatureSet>, form: Params, sent: seq<Post>)
      ensures Queried(pages, url, params, results, form, sent)
    {
      var p := Pass(None, params, 0, true);
      sent := [];
      var k: nat := 0;
      // `keepGoing` starts true, so the first pass always runs; `tryAgain` is never set
      while p.keepGoing
        invariant Paging(pages, url, params, k, p, sent)
        decreases MaxRequests - k
      {
        var post;
        p, post := FetchFeatures(url, pages, k, p, params, sent);
        sent := sent + [post];
        k := k + 1;
      }
      PagingOutcome(pages, url, params, k, p, sent);
      results, form := p.results, p.params;
    }

    /**
     * getFeatures: make sure a token is held, fill in the form's defaults,
     * fix the query URL with the token, read the service info (which makes
     * sure of a token once more), let its fields rewrite `outFields` and
     * build the domains, page through the query, then attach the domains and
     * the info with its fields keyed by name.
     */
    method GetFeatures(serviceUrl: string, params: Params, grants: seq<Doc>, info: Doc, pages: seq<Doc>)
      returns (result: FeatureQuery, infoUrl: string, sent: seq<Post>)
      modifies this
      ensures var first := if Truthy(old(token)) then old(token) else Granted(old(token), GrantAt(grants, 0));
        var used := if Truthy(old(token)) then 0 else 1;
        var fields := Elements(Get(info, "fields"));
        var prepared := PrePass(fields, WithDefaults(params));
        && Queried(pages, serviceUrl + "/query?token=" + AsString(first), prepared, result.results, FormAt(prepared, Pages(pages, |sent|)), sent)
        && token == (if Truthy(first) then first else Granted(first, GrantAt(grants, used)))
        && exchanges == old(exchanges) + used + (if Truthy(first) then 0 else 1)
        && infoUrl == serviceUrl + "/info?f=json&token=" + AsString(token)
        && result.domains == DomainKey(fields)
        && result.info == info
        && result.infoFields == ByName(fields)
    {
      var before := exchanges;
      EnsureToken(GrantAt(grants, 0));
      var used: nat := exchanges - before;
      var withDefaults := WithDefaults(params);
      var url := serviceUrl + "/query?token=" + AsString(token);
      // getInfo
      EnsureToken(GrantAt(grants, used));
      infoUrl := serviceUrl + "/info?f=json&token=" + AsString(token);
      var serviceInfo := info;
      var prepared, domainKey := ReadFields(Elements(Get(serviceInfo, "fields")), withDefaults);
      var results, form;
      results, form, sent := Query(url, prepared, pages);
      var fieldInfos := KeyByName(Elements(Get(serviceInfo, "fields")));
      result := FeatureQuery(results, domainKey, serviceInfo, fieldInfos);
    }
  }

  // ---------------------------------------------------------------------------
  // convertDateTimeString: the text handed to the date parser

  /**
   * The date-time text: nothing for a falsy string; a time without a date
   * (a `:` but no `-` or `/`) is dated 30 December 1899; a text without a
   * time (no `:`) is taken at midnight.
   */
  function NormalizeDateTime(s: string): Option<string>
  {
    if !Truthy(Str(s)) then None
    else
      var dated := if !Contains(s, "-") && !Contains(s, "/") && Contains(s, ":") then "1899-12-30 " + s else s;
      Some(if !Contains(dated, ":") then dated + " 00:00:00" else dated)
  }

  /** The three cases: a time alone gets a date, a date alone gets a time, a date-time is kept. */
  lemma NormalizeCases(s: string)
    ensures NormalizeDateTime(s).None? <==> s == "" || s == "0"
    ensures s != "" && s != "0" && ':' in s && '-' !in s && '/' !in s ==> NormalizeDateTime(s) == Some("1899-12-30 " + s)
    ensures s != "" && s != "0" && ':' !in s ==> NormalizeDateTime(s) == Some(s + " 00:00:00")
    ensures ':' in s && ('-' in s || '/' in s) ==> NormalizeDateTime(s) == Some(s)
  {
    HasChar(s, ':');
    HasChar(s, '-');
    HasChar(s, '/');
    if ':' in s && '-' !in s && '/' !in s {
      HasChar("1899-12-30 " + s, ':');
      assert ("1899-12-30 " + s)[11..] == s;
      var i :| 0 <= i < |s| && s[i] == ':';
      assert ("1899-12-30 " + s)[11 + i] == ':';
    }
  }

  /** `strpos($s, $c) !== false` for one character is membership. */
  lemma HasChar(s: string, c: char)
    ensures Contains(s, [c]) <==> c in s
  {
    ContainsChar(s, c);
  }

  /** The text handed on always has a time part. */
  lemma NormalizedHasTime(s: string)
    ensures NormalizeDateTime(s).Some? ==> ':' in NormalizeDateTime(s).value
  {
    NormalizeCases(s);
    assert ':' in " 00:00:00";
  }

  /**
   * Any text with a `:`, `-` or `/` comes out with a date separator and a
   * time, so normalising it again changes nothing.
   */
  lemma NormalizeIdempotent(s: string)
    requires ':' in s || '-' in s || '/' in s
    ensures NormalizeDateTime(s).Some?
    ensures '-' in NormalizeDateTime(s).value || '/' in NormalizeDateTime(s).value
    ensures NormalizeDateTime(NormalizeDateTime(s).value) == NormalizeDateTime(s)
  {
    NormalizeCases(s);
    var r := NormalizeDateTime(s).value;
    assert ':' in r && ('-' in r || '/' in r) by {
      if ':' in s && '-' !in s && '/' !in s {
        assert r == "1899-12-30 " + s && r[4] == '-';
      } else if ':' !in s {
        assert r == s + " 00:00:00" && r[|s| + 3] == ':';
      }
    }
    assert r != "" && r != "0" by { assert ':' in r; }
    NormalizeCases(r);
  }

  /**
   * A bare date with no separator at all (`20200101`) is taken at midnight,
   * and that text normalised again is read as a time alone.
   */
  lemma NormalizeBareDate(s: string)
    requires s != "" && s != "0" && ':' !in s && '-' !in s && '/' !in s
    ensures NormalizeDateTime(s) == Some(s + " 00:00:00")
    ensures NormalizeDateTime(s + " 00:00:00") == Some("1899-12-30 " + s + " 00:00:00")
  {
    NormalizeCases(s);
    var r := s + " 00:00:00";
    assert r[|s| + 3] == ':';
    assert '-' !in r && '/' !in r;
    assert r != "" && r != "0";
    NormalizeCases(r);
    assert "1899-12-30 " + r == "1899-12-30 " + s + " 00:00:00";
  }
}
