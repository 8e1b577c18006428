/**
 * The base filter: its constants, the fields a filter instance exposes as
 * criteria, its ordering value, and the two validators that run on every
 * field before type coercion and act only on the ordering field.
 */
module BaseFilter {
  import opened Results
  import opened Text
  import opened Values
  import opened Ordering

  /** The ordering field's name when a filter does not set its own. */
  const DefaultOrderingFieldName: string := "order_by"

  /**
   * A filter's `Constants`: the attribute names of the target model (what
   * `hasattr(model, name)` answers for) and the ordering field's name.
   */
  datatype Constants = Constants(modelAttrs: set<string>, orderingFieldName: string)

  /** A declared field of a filter instance, with its alias and current value. */
  datatype Field = Field(name: string, alias: string, value: Value)

  /**
   * A filter instance: its fields in declaration order, and the names of
   * those that were explicitly given at construction.
   */
  datatype Instance = Instance(fields: seq<Field>, fieldsSet: set<string>)

  /** `model_dump(by_alias=byAlias)`: every field, in declaration order. */
  function Dump(inst: Instance, byAlias: bool): Dict {
    DumpFields(inst.fields, byAlias)
  }

  function DumpFields(fields: seq<Field>, byAlias: bool): (d: Dict)
    ensures |d| == |fields|
    ensures forall i :: 0 <= i < |d| ==>
      d[i] == (if byAlias then fields[i].alias else fields[i].name, fields[i].value)
  {
    if fields == [] then []
    else [(if byAlias then fields[0].alias else fields[0].name, fields[0].value)] + DumpFields(fields[1..], byAlias)
  }

  // ---------------------------------------------------------------------
  // filtering_fields
  // ---------------------------------------------------------------------

  /** `model_dump(exclude_none=True, exclude_unset=True)` over the given fields. */
  function DumpSetNonNull(fields: seq<Field>, fieldsSet: set<string>): Dict {
    if fields == [] then []
    else
      (if fields[0].name in fieldsSet && fields[0].value != Null then [(fields[0].name, fields[0].value)] else [])
        + DumpSetNonNull(fields[1..], fieldsSet)
  }

  /** `d.pop(k, None)` on a fresh dict: the entry with key `k` removed. */
  function Pop(d: Dict, k: string): Dict {
    if d == [] then [] else (if d[0].0 == k then [] else [d[0]]) + Pop(d[1..], k)
  }

  /**
   * The `filtering_fields` property: the dump of set, non-None fields without
   * the ordering field. Its entries are entries of the full dump, in the same order.
   */
  function FilteringFields(inst: Instance, c: Constants): (r: Dict)
    ensures Subsequence(r, Dump(inst, false))
  {
    FilteringFieldsOrderRec(inst.fields, inst.fieldsSet, c.orderingFieldName);
    Pop(DumpSetNonNull(inst.fields, inst.fieldsSet), c.orderingFieldName)
  }

  /** A field `filtering_fields` reports. */
  predicate IsCriterion(f: Field, fieldsSet: set<string>, orderingFieldName: string) {
    f.name in fieldsSet && f.value != Null && f.name != orderingFieldName
  }

  lemma {:induction false} FilteringFieldsMembersRec(fields: seq<Field>, fieldsSet: set<string>, k: string, e: (string, Value))
    ensures e in Pop(DumpSetNonNull(fields, fieldsSet), k) <==>
      exists f :: f in fields && IsCriterion(f, fieldsSet, k) && e == (f.name, f.value)
  {
    if fields != [] {
      FilteringFieldsMembersRec(fields[1..], fieldsSet, k, e);
      var head := if fields[0].name in fieldsSet && fields[0].value != Null then [(fields[0].name, fields[0].value)] else [];
      PopConcat(head, DumpSetNonNull(fields[1..], fieldsSet), k);
      assert fields == [fields[0]] + fields[1..];
      if exists f :: f in fields && IsCriterion(f, fieldsSet, k) && e == (f.name, f.value) {
        var f :| f in fields && IsCriterion(f, fieldsSet, k) && e == (f.name, f.value);
        if f != fields[0] {
          assert f in fields[1..];
        }
      }
    }
  }

  lemma {:induction false} PopConcat(a: Dict, b: Dict, k: string)
    ensures Pop(a + b, k) == Pop(a, k) + Pop(b, k)
  {
    if a != [] {
      assert (a + b)[1..] == a[1..] + b;
      PopConcat(a[1..], b, k);
    } else {
      assert a + b == b;
    }
  }

  lemma {:induction false} FilteringFieldsOrderRec(fields: seq<Field>, fieldsSet: set<string>, k: string)
    ensures Subsequence(Pop(DumpSetNonNull(fields, fieldsSet), k), DumpFields(fields, false))
  {
    var all := DumpFields(fields, false);
    if fields != [] {
      FilteringFieldsOrderRec(fields[1..], fieldsSet, k);
      var rest := Pop(DumpSetNonNull(fields[1..], fieldsSet), k);
      var head := if fields[0].name in fieldsSet && fields[0].value != Null then [(fields[0].name, fields[0].value)] else [];
      PopConcat(head, DumpSetNonNull(fields[1..], fieldsSet), k);
      assert all[1..] == DumpFields(fields[1..], false);
      if IsCriterion(fields[0], fieldsSet, k) {
        assert Pop(DumpSetNonNull(fields, fieldsSet), k) == [all[0]] + rest;
        assert ([all[0]] + rest)[1..] == rest;
      } else {
        assert Pop(head, k) == [];
        assert Pop(DumpSetNonNull(fields, fieldsSet), k) == rest;
        SubsequenceSkip(rest, all);
      }
    }
  }

  lemma {:induction false} SubsequenceSkip<T>(a: seq<T>, b: seq<T>)
    requires b != [] && Subsequence(a, b[1..])
    ensures Subsequence(a, b)
    decreases |a| + |b|
  {
    if a != [] && a[0] == b[0] {
      SubsequenceDrop(a, b[1..]);
    }
  }

  lemma {:induction false} SubsequenceDrop<T>(a: seq<T>, b: seq<T>)
    requires a != [] && Subsequence(a, b)
    ensures Subsequence(a[1..], b)
    decreases |a| + |b|
  {
    if b != [] {
      if a[0] == b[0] {
        SubsequenceSkip(a[1..], b);
      } else {
        SubsequenceDrop(a, b[1..]);
        SubsequenceSkip(a[1..], b);
      }
    }
  }

  /**
   * `filtering_fields` reports exactly the fields that were explicitly set,
   * are not None and are not the ordering field, each with its value, in
   * declaration order; so the ordering field is never among them.
   */
  lemma FilteringFieldsExactly(inst: Instance, c: Constants)
    ensures forall e :: e in FilteringFields(inst, c) <==>
      exists f :: f in inst.fields && IsCriterion(f, inst.fieldsSet, c.orderingFieldName) && e == (f.name, f.value)
    ensures Subsequence(FilteringFields(inst, c), Dump(inst, false))
    ensures c.orderingFieldName !in Keys(FilteringFields(inst, c))
  {
    forall e
      ensures e in FilteringFields(inst, c) <==>
        exists f :: f in inst.fields && IsCriterion(f, inst.fieldsSet, c.orderingFieldName) && e == (f.name, f.value)
    {
      FilteringFieldsMembersRec(inst.fields, inst.fieldsSet, c.orderingFieldName, e);
    }
    FilteringFieldsOrderRec(inst.fields, inst.fieldsSet, c.orderingFieldName);
    var r := FilteringFields(inst, c);
    if c.orderingFieldName in Keys(r) {
      var i :| 0 <= i < |r| && Keys(r)[i] == c.orderingFieldName;
      KeysAt(r, i);
      assert r[i] in r;
    }
  }

  lemma {:induction false} KeysAt(d: Dict, i: nat)
    requires i < |d|
    ensures |Keys(d)| == |d| && Keys(d)[i] == d[i].0
  {
    if i > 0 {
      KeysAt(d[1..], i - 1);
    }
  }

  // ---------------------------------------------------------------------
  // ordering_values
  // ---------------------------------------------------------------------

  /** `getattr(self, name)` for a declared field. */
  function FieldValue(fields: seq<Field>, name: string): (r: Option<Value>)
    ensures r.Some? <==> exists f :: f in fields && f.name == name
    ensures r.Some? ==> exists f :: f in fields && f.name == name && f.value == r.value
  {
    if fields == [] then None
    else if fields[0].name == name then Some(fields[0].value)
    else
      var r := FieldValue(fields[1..], name);
      assert forall f :: f in fields <==> f == fields[0] || f in fields[1..];
      r
  }

  function MissingOrderingFieldMessage(name: string): string {
    "Ordering field " + name + " is not defined. Make sure to add it to your filter class."
  }

  /**
   * The `ordering_values` property: the ordering field's value when the
   * filter declares that field, and otherwise the configuration error that
   * names it.
   */
  function OrderingValues(inst: Instance, c: Constants): (r: Result<Value, Error>)
    ensures r.Ok? <==> exists f :: f in inst.fields && f.name == c.orderingFieldName
    ensures r.Ok? ==> exists f :: f in inst.fields && f.name == c.orderingFieldName && f.value == r.value
    ensures r.Err? ==> r.error == ConfigError(MissingOrderingFieldMessage(c.orderingFieldName))
  {
    match FieldValue(inst.fields, c.orderingFieldName)
    case Some(v) => Ok(v)
    case None => Err(ConfigError(MissingOrderingFieldMessage(c.orderingFieldName)))
  }

  // ---------------------------------------------------------------------
  // The two validators
  // ---------------------------------------------------------------------

  /**
   * What the validators accept for the ordering field: a falsy value or a
   * list of strings.
   */
  predicate OrderingInput(v: Value) {
    Falsy(v) || v.StrList?
  }

  /** What `strip_order_by_values` returns. */
  function StrippedOrderBy(c: Constants, fieldName: string, value: Value): Value
    requires fieldName == c.orderingFieldName ==> OrderingInput(value)
  {
    if fieldName != c.orderingFieldName then value
    else if Falsy(value) then Null
    else StrList(StripTokens(value.items))
  }

  /** What `validate_order_by` returns or raises. */
  function ValidatedOrderBy(c: Constants, fieldName: string, value: Value): Result<Value, Error>
    requires fieldName == c.orderingFieldName ==> OrderingInput(value)
  {
    if fieldName != c.orderingFieldName then Ok(value)
    else if Falsy(value) then Ok(Null)
    else match FirstUnknown(c.modelAttrs, value.items)
      case Some(name) => Err(ValueError(UnknownFieldMessage(name)))
      case None =>
        if Duplicated(value.items) != {} then
          Err(ValueError(AmbiguousMessage(c.orderingFieldName, AmbiguousTokens(value.items))))
        else Ok(value)
  }

  /** `strip_order_by_values`: trims every token and drops the blank ones. */
  method StripOrderByValues(c: Constants, fieldName: string, value: Value) returns (r: Value)
    requires fieldName == c.orderingFieldName ==> OrderingInput(value)
    ensures r == StrippedOrderBy(c, fieldName, value)
  {
    if fieldName != c.orderingFieldName {
      return value;
    }
    if Falsy(value) {
      return Null;
    }
    var tokens := value.items;
    var stripped: seq<string> := [];
    for i := 0 to |tokens|
      invariant stripped == StripTokens(tokens[..i])
    {
      assert tokens[..i + 1][..i] == tokens[..i];
      var s := Strip(tokens[i]);
      if s != [] {
        stripped := stripped + [s];
      }
    }
    assert tokens[..|tokens|] == tokens;
    return StrList(stripped);
  }

  /** `field_name_usages[name]` of a `defaultdict(list)`: a missing name reads as empty. */
  function UsagesOf(usages: map<string, seq<string>>, name: string): seq<string> {
    if name in usages then usages[name] else []
  }

  /**
   * `field_name_usages` after the loop has appended every token to the list
   * of its base name.
   */
  function UsageMap(tokens: seq<string>): map<string, seq<string>> {
    if tokens == [] then map[]
    else
      var n := |tokens| - 1;
      var m := UsageMap(tokens[..n]);
      m[BaseName(tokens[n]) := UsagesOf(m, BaseName(tokens[n])) + [tokens[n]]]
  }

  /** Appending token `i` to its name's list extends the usages of the first `i` tokens. */
  lemma UsageMapStep(tokens: seq<string>, i: nat)
    requires i < |tokens|
    ensures UsageMap(tokens[..i + 1]) ==
      UsageMap(tokens[..i])[BaseName(tokens[i]) := UsagesOf(UsageMap(tokens[..i]), BaseName(tokens[i])) + [tokens[i]]]
    ensures Duplicated(tokens[..i + 1]) ==
      Duplicated(tokens[..i]) + (if |Usages(tokens[..i], BaseName(tokens[i]))| >= 1 then {BaseName(tokens[i])} else {})
  {
    assert tokens[..i + 1][..i] == tokens[..i];
  }

  /**
   * When the first `i` tokens are all known, token `i` decides: if its name is
   * unknown it is the first unknown one of all the tokens.
   */
  lemma FirstUnknownStep(attrs: set<string>, tokens: seq<string>, i: nat)
    requires i < |tokens| && FirstUnknown(attrs, tokens[..i]) == None
    ensures BaseName(tokens[i]) in attrs ==> FirstUnknown(attrs, tokens[..i + 1]) == None
    ensures BaseName(tokens[i]) !in attrs ==> FirstUnknown(attrs, tokens) == Some(BaseName(tokens[i]))
  {
    assert tokens[..i + 1] == tokens[..i] + [tokens[i]];
    assert tokens == tokens[..i] + tokens[i..];
    assert tokens[i..][0] == tokens[i];
    FirstUnknownConcat(attrs, tokens[..i], [tokens[i]]);
    FirstUnknownConcat(attrs, tokens[..i], tokens[i..]);
  }

  /** The defaultdict holds, under every name, exactly that name's usages. */
  lemma {:induction false} UsageMapSpec(tokens: seq<string>, name: string)
    ensures UsagesOf(UsageMap(tokens), name) == Usages(tokens, name)
  {
    if tokens != [] {
      UsageMapSpec(tokens[..|tokens| - 1], name);
    }
  }

  /** The comprehension over `sorted(duplicated_field_names)` reading `field_name_usages`. */
  function CollectUsages(names: seq<string>, usages: map<string, seq<string>>): seq<string> {
    if names == [] then [] else UsagesOf(usages, names[0]) + CollectUsages(names[1..], usages)
  }

  lemma {:induction false} CollectUsagesIsGather(names: seq<string>, usages: map<string, seq<string>>, tokens: seq<string>)
    requires forall name :: UsagesOf(usages, name) == Usages(tokens, name)
    ensures CollectUsages(names, usages) == Gather(names, tokens)
  {
    if names != [] {
      CollectUsagesIsGather(names[1..], usages, tokens);
    }
  }

  /**
   * The loop of `validate_order_by`: walks the tokens, stopping at the first
   * whose base name is not a model attribute, and otherwise records every
   * name's usages and the names seen more than once.
   */
  method TallyUsages(attrs: set<string>, tokens: seq<string>)
    returns (unknown: Option<string>, usages: map<string, seq<string>>, duplicated: set<string>)
    ensures unknown == FirstUnknown(attrs, tokens)
    ensures unknown.None? ==> usages == UsageMap(tokens) && duplicated == Duplicated(tokens)
  {
    usages := map[];
    duplicated := {};
    var i := 0;
    while i < |tokens|
      invariant 0 <= i <= |tokens|
      invariant FirstUnknown(attrs, tokens[..i]) == None
      invariant usages == UsageMap(tokens[..i])
      invariant duplicated == Duplicated(tokens[..i])
    {
      var token := tokens[i];
      var name := BaseName(token);
      FirstUnknownStep(attrs, tokens, i);
      if name !in attrs {
        return Some(name), usages, duplicated;
      }
      UsageMapSpec(tokens[..i], name);
      UsageMapStep(tokens, i);
      usages := usages[name := UsagesOf(usages, name) + [token]];
      if |usages[name]| > 1 {
        duplicated := duplicated + {name};
      }
      i := i + 1;
    }
    assert tokens[..i] == tokens;
    unknown := None;
  }

  /**
   * `validate_order_by`: rejects the first token whose base name is not a
   * model attribute, then rejects base names used more than once, and
   * otherwise returns the value unchanged.
   */
  method ValidateOrderBy(c: Constants, fieldName: string, value: Value) returns (r: Result<Value, Error>)
    requires fieldName == c.orderingFieldName ==> OrderingInput(value)
    ensures r == ValidatedOrderBy(c, fieldName, value)
  {
    if fieldName != c.orderingFieldName {
      return Ok(value);
    }
    if Falsy(value) {
      return Ok(Null);
    }
    var unknown, usages, duplicated := TallyUsages(c.modelAttrs, value.items);
    if unknown.Some? {
      return Err(ValueError(UnknownFieldMessage(unknown.value)));
    }
    if duplicated != {} {
      forall n ensures UsagesOf(usages, n) == Usages(value.items, n) {
        UsageMapSpec(value.items, n);
      }
      CollectUsagesIsGather(SortSet(duplicated), usages, value.items);
      var ambiguous := CollectUsages(SortSet(duplicated), usages);
      return Err(ValueError(AmbiguousMessage(c.orderingFieldName, ambiguous)));
    }
    return Ok(value);
  }

  // ---------------------------------------------------------------------
  // What the two validators promise
  // ---------------------------------------------------------------------

  /**
   * Both validators leave every field but the ordering field alone, and
   * both turn an empty or missing ordering value into None.
   */
  lemma {:induction false} ValidatorsPassThrough(c: Constants, fieldName: string, value: Value)
    requires fieldName == c.orderingFieldName ==> OrderingInput(value)
    ensures fieldName != c.orderingFieldName ==>
      StrippedOrderBy(c, fieldName, value) == value && ValidatedOrderBy(c, fieldName, value) == Ok(value)
    ensures fieldName == c.orderingFieldName && Falsy(value) ==>
      StrippedOrderBy(c, fieldName, value) == Null && ValidatedOrderBy(c, fieldName, value) == Ok(Null)
    ensures fieldName == c.orderingFieldName && !Falsy(value) ==>
      StrippedOrderBy(c, fieldName, value).StrList?
  {
  }

  /**
   * `strip_order_by_values` on a non-empty list keeps, in their order, the
   * stripped tokens that are not blank: each one non-empty with no
   * surrounding whitespace, and nothing else.
   */
  lemma {:induction false} StripOrderByKeeps(c: Constants, value: Value, x: string)
    requires value.StrList? && value.items != []
    ensures StrippedOrderBy(c, c.orderingFieldName, value).StrList?
    ensures forall k :: 0 <= k < |StrippedOrderBy(c, c.orderingFieldName, value).items| ==>
      StrippedOrderBy(c, c.orderingFieldName, value).items[k] != [] &&
      IsStripped(StrippedOrderBy(c, c.orderingFieldName, value).items[k])
    ensures x in StrippedOrderBy(c, c.orderingFieldName, value).items <==>
      x != [] && exists t :: t in value.items && Strip(t) == x
  {
    StripTokensMembers(value.items, x);
  }

  /**
   * Running `strip_order_by_values` on its own output changes nothing,
   * except that a list whose tokens were all blank comes out as `[]` and
   * a second pass turns that into None.
   */
  lemma {:induction false} StripOrderByIdempotent(c: Constants, value: Value)
    requires OrderingInput(value)
    ensures OrderingInput(StrippedOrderBy(c, c.orderingFieldName, value))
    ensures StrippedOrderBy(c, c.orderingFieldName, value) == StrList([]) <==>
      !Falsy(value) && forall k :: 0 <= k < |value.items| ==> AllSpace(value.items[k])
    ensures StrippedOrderBy(c, c.orderingFieldName, value) != StrList([]) ==>
      StrippedOrderBy(c, c.orderingFieldName, StrippedOrderBy(c, c.orderingFieldName, value))
        == StrippedOrderBy(c, c.orderingFieldName, value)
    ensures StrippedOrderBy(c, c.orderingFieldName, value) == StrList([]) ==>
      StrippedOrderBy(c, c.orderingFieldName, StrippedOrderBy(c, c.orderingFieldName, value)) == Null
  {
    if !Falsy(value) {
      StripTokensEmpty(value.items);
      StripTokensIdempotent(value.items);
    }
  }

  /**
   * `validate_order_by` accepts a non-empty ordering list exactly when every
   * token's base name is a model attribute and no two tokens share a base
   * name, and then returns the list unchanged.
   */
  lemma {:induction false} ValidateAcceptsExactly(c: Constants, value: Value)
    requires value.StrList? && value.items != []
    ensures ValidatedOrderBy(c, c.orderingFieldName, value).Ok? <==>
      (forall k :: 0 <= k < |value.items| ==> BaseName(value.items[k]) in c.modelAttrs) &&
      (forall i, j :: 0 <= i < j < |value.items| ==> BaseName(value.items[i]) != BaseName(value.items[j]))
    ensures ValidatedOrderBy(c, c.orderingFieldName, value).Ok? ==>
      ValidatedOrderBy(c, c.orderingFieldName, value).value == value
  {
    FirstUnknownSpec(c.modelAttrs, value.items);
    NoDuplicatesIff(value.items);
  }

  /**
   * The first token, in list order, whose base name is not a model
   * attribute is reported by its base name, before any duplicate is looked at.
   */
  lemma {:induction false} ValidateRejectsUnknown(c: Constants, value: Value, k: nat)
    requires value.StrList? && k < |value.items|
    requires BaseName(value.items[k]) !in c.modelAttrs
    requires forall j :: 0 <= j < k ==> BaseName(value.items[j]) in c.modelAttrs
    ensures ValidatedOrderBy(c, c.orderingFieldName, value)
      == Err(ValueError(BaseName(value.items[k]) + " is not a valid ordering field."))
  {
    FirstUnknownAt(c.modelAttrs, value.items, k);
  }

  /**
   * When every name is known but two tokens share a base name, whatever
   * their direction markers, the error lists the ambiguous tokens: those of
   * the duplicated names and no others, grouped by ascending base name.
   */
  lemma {:induction false} ValidateRejectsDuplicates(c: Constants, value: Value, i: nat, j: nat)
    requires value.StrList? && i < j < |value.items|
    requires forall k :: 0 <= k < |value.items| ==> BaseName(value.items[k]) in c.modelAttrs
    requires BaseName(value.items[i]) == BaseName(value.items[j])
    ensures ValidatedOrderBy(c, c.orderingFieldName, value)
      == Err(ValueError(AmbiguousMessage(c.orderingFieldName, AmbiguousTokens(value.items))))
    ensures value.items[i] in AmbiguousTokens(value.items) && value.items[j] in AmbiguousTokens(value.items)
  {
    var tokens := value.items;
    FirstUnknownSpec(c.modelAttrs, tokens);
    DuplicatedIff(tokens, BaseName(tokens[i]));
    AmbiguousTokensMembers(tokens, tokens[i]);
    AmbiguousTokensMembers(tokens, tokens[j]);
  }

  /** What `validate_order_by` accepts, it accepts again. */
  lemma {:induction false} ValidateIdempotent(c: Constants, fieldName: string, value: Value)
    requires fieldName == c.orderingFieldName ==> OrderingInput(value)
    requires ValidatedOrderBy(c, fieldName, value).Ok?
    ensures fieldName == c.orderingFieldName ==> OrderingInput(ValidatedOrderBy(c, fieldName, value).value)
    ensures ValidatedOrderBy(c, fieldName, ValidatedOrderBy(c, fieldName, value).value)
      == ValidatedOrderBy(c, fieldName, value)
  {
    if fieldName == c.orderingFieldName && !Falsy(value) {
      ValidateAcceptsExactly(c, value);
    }
  }

  /**
   * `id` and `-id` name the same field, so ordering by both is rejected,
   * and the message lists both tokens in their order.
   */
  lemma ScenarioAmbiguousDirection()
    ensures ValidatedOrderBy(Constants({"id"}, DefaultOrderingFieldName), DefaultOrderingFieldName,
                             StrList(["id", "-id"]))
      == Err(ValueError(AmbiguousMessage(DefaultOrderingFieldName, ["id", "-id"])))
  {
    var tokens := ["id", "-id"];
    IdTokens();
    ValidateRejectsDuplicates(Constants({"id"}, DefaultOrderingFieldName), StrList(tokens), 0, 1);
    IdAmbiguous();
  }

  lemma IdAmbiguous()
    ensures AmbiguousTokens(["id", "-id"]) == ["id", "-id"]
  {
    var tokens := ["id", "-id"];
    IdDuplicated();
    IdUsages();
    assert SortSet({"id"}) == ["id"] by {
      assert Least({"id"}) == "id";
      assert {"id"} - {"id"} == {};
    }
    assert AmbiguousTokens(tokens) == Usages(tokens, "id") + Gather([], tokens);
  }

  lemma IdTokens()
    ensures BaseName("id") == "id" && BaseName("-id") == "id"
  {
    BaseNameOfPlainName("id");
    DirectionIgnored("id");
  }

  lemma IdDuplicated()
    ensures Duplicated(["id", "-id"]) == {"id"}
  {
    var tokens := ["id", "-id"];
    IdTokens();
    assert BaseName(tokens[0]) == "id" && BaseName(tokens[1]) == "id";
    forall n ensures n in Duplicated(tokens) <==> n == "id" {
      DuplicatedIff(tokens, n);
    }
  }

  lemma IdUsages()
    ensures Usages(["id", "-id"], "id") == ["id", "-id"]
  {
    IdTokens();
    var tokens := ["id", "-id"];
    assert tokens[..1] == ["id"] && ["id"][..0] == [];
  }

  /**
   * A marker inside a name is removed too, so `a-b` does not name the
   * attribute `a_b`, and the error reports `ab`.
   */
  lemma ScenarioMarkerInsideName()
    ensures ValidatedOrderBy(Constants({"a_b"}, DefaultOrderingFieldName), DefaultOrderingFieldName,
                             StrList(["a-b"]))
      == Err(ValueError(UnknownFieldMessage("ab")))
  {
    assert BaseName("a-b") == "ab" by {
      assert "a-b" == "a" + "-b";
      BaseNameConcat("a", "-b");
      BaseNameOfPlainName("a");
      DirectionIgnored("b");
      BaseNameOfPlainName("b");
    }
    ValidateRejectsUnknown(Constants({"a_b"}, DefaultOrderingFieldName), StrList(["a-b"]), 0);
  }
}
