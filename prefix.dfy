/**
 * Prefix composition: `with_prefix` re-uses a filter under a prefix. The
 * nested filter's alias generator puts `prefix + "__"` in front of every
 * field name, and the plain validator turns a model or a dict back into
 * the original filter after taking the prefix off every key.
 */
module Prefix {
  import opened Results
  import opened Values
  import opened BaseFilter

  /**
   * The alias generator of the nested filter: the alias starts with the
   * prefix, and what follows it is the separator and the field name.
   */
  function Alias(prefix: string, name: string): (r: string)
    ensures prefix <= r
    ensures r[|prefix|..] == "__" + name
    ensures |r| == |prefix| + 2 + |name|
  {
    assert prefix + "__" + name == prefix + ("__" + name);
    prefix + "__" + name
  }

  /** Under one prefix, different field names get different aliases. */
  lemma AliasInjective(prefix: string, a: string, b: string)
    requires Alias(prefix, a) == Alias(prefix, b)
    ensures a == b
  {
    assert a == ("__" + a)[2..] && b == ("__" + b)[2..];
  }

  /**
   * A field of the filter being prefixed. A field whose default declares an
   * alias of its own (a `Query(alias=...)`) keeps it: the generator comes last.
   */
  datatype FieldDecl = FieldDecl(name: string, explicitAlias: Option<string>)

  /** The query parameter a field of the nested filter answers to. */
  function ParamName(prefix: string, f: FieldDecl): string {
    match f.explicitAlias
    case Some(a) => a
    case None => Alias(prefix, f.name)
  }

  /**
   * Fields without an alias of their own get distinct prefixed parameters;
   * a field with one answers to it, unprefixed.
   */
  lemma ParamNamesPrefixed(prefix: string, f: FieldDecl, g: FieldDecl)
    requires f.name != g.name
    ensures f.explicitAlias.None? && g.explicitAlias.None? ==> ParamName(prefix, f) != ParamName(prefix, g)
    ensures f.explicitAlias.None? ==> prefix <= ParamName(prefix, f)
    ensures f.explicitAlias.Some? ==> ParamName(prefix, f) == f.explicitAlias.value
  {
    if f.explicitAlias.None? && g.explicitAlias.None? && ParamName(prefix, f) == ParamName(prefix, g) {
      AliasInjective(prefix, f.name, g.name);
    }
  }

  /** `s.removeprefix(p)`. */
  function RemovePrefix(s: string, p: string): (r: string)
    ensures p <= s ==> p + r == s
    ensures !(p <= s) ==> r == s
  {
    if p <= s then s[|p|..] else s
  }

  /** Taking off a prefix that was put on gives back the original. */
  lemma RemovePrefixOfAdded(p: string, s: string)
    ensures RemovePrefix(p + s, p) == s
  {
    assert p <= p + s;
  }

  /** What `plain_validator` may be handed. */
  datatype PlainInput =
    | ModelInput(model: Instance)   // any pydantic model
    | DictInput(d: Dict)            // a dict
    | OtherInput(typeName: string)  // anything else, by the name of its class

  /** The dict comprehension of `plain_validator`: every key with `prefix` removed. */
  function StripPrefixKeys(d: Dict, prefix: string): Dict {
    Rekey(d, k => RemovePrefix(k, prefix))
  }

  /**
   * `plain_validator` as written: a model is dumped by field name, a dict is
   * taken as it is, the prefix is removed from every key, and the original
   * filter is built from the result by `construct`; anything else is refused.
   */
  function PlainValidator(prefix: string, input: PlainInput, construct: Dict -> Result<Instance, Error>)
    : (r: Result<Instance, Error>)
    ensures input.OtherInput? ==> r.Err? && r.error.ValueError?
    ensures input.OtherInput? ==> r == Err(ValueError("Unexpected type: <class '" + input.typeName + "'>"))
    ensures input.ModelInput? ==> r == construct(StripPrefixKeys(Dump(input.model, false), prefix))
    ensures input.DictInput? ==> r == construct(StripPrefixKeys(input.d, prefix))
  {
    match input
    case ModelInput(m) => construct(StripPrefixKeys(Dump(m, false), prefix))
    case DictInput(d) => construct(StripPrefixKeys(d, prefix))
    case OtherInput(t) => Err(ValueError("Unexpected type: <class '" + t + "'>"))
  }

  /**
   * A model is handled as the dict of its field values, and any input other
   * than a model or a dict is refused with a `ValueError` before any filter
   * is built.
   */
  lemma PlainValidatorInputs(prefix: string, input: PlainInput, construct: Dict -> Result<Instance, Error>)
    ensures input.ModelInput? ==>
      PlainValidator(prefix, input, construct) == PlainValidator(prefix, DictInput(Dump(input.model, false)), construct)
    ensures input.OtherInput? ==>
      PlainValidator(prefix, input, construct).Err? && PlainValidator(prefix, input, construct).error.ValueError?
    ensures input.OtherInput? ==>
      forall other: Dict -> Result<Instance, Error> ::
        PlainValidator(prefix, input, other) == PlainValidator(prefix, input, construct)
  {
  }

  /**
   * Keys that do not start with the prefix pass through unchanged: a dict
   * whose keys all lack it reaches the filter as it is.
   */
  lemma {:induction false} StripPrefixKeysUnprefixed(d: Dict, prefix: string)
    requires UniqueKeys(d)
    requires forall k :: k in Keys(d) ==> !(prefix <= k)
    ensures StripPrefixKeys(d, prefix) == d
  {
    var f := k => RemovePrefix(k, prefix);
    var e := RekeyedEntries(d, f);
    assert e == d by {
      forall i | 0 <= i < |d|
        ensures e[i] == d[i]
      {
        assert Keys(d)[i] == d[i].0;
        assert Keys(d)[i] in Keys(d);
      }
    }
    RekeyWithoutCollision(d, f);
  }

  /** Removing the prefix from an alias leaves the separator in front of the name. */
  lemma AliasStripLeavesSeparator(prefix: string, name: string)
    ensures RemovePrefix(Alias(prefix, name), prefix) == "__" + name
  {
  }

  /**
   * A dict keyed by alias, with prefix `n`: the filter is asked for a field
   * `__count`, not `count`.
   */
  lemma DictAliasKeysKeepSeparator()
    ensures StripPrefixKeys([(Alias("n", "count"), Int(5))], "n") == [("__count", Int(5))]
  {
    var d := [(Alias("n", "count"), Int(5))];
    AliasStripLeavesSeparator("n", "count");
    assert d[..0] == [];
    assert StripPrefixKeys(d, "n") == Put([], RemovePrefix(Alias("n", "count"), "n"), Int(5));
    assert "__" + "count" == "__count";
  }

  /**
   * A model whose field `name` starts with the prefix `n`: the filter is
   * asked for a field `ame`.
   */
  lemma ModelFieldNameLosesPrefix(construct: Dict -> Result<Instance, Error>)
    ensures PlainValidator("n", ModelInput(Instance([Field("name", Alias("n", "name"), Str("x"))], {"name"})), construct)
      == construct([("ame", Str("x"))])
  {
    var m := Instance([Field("name", Alias("n", "name"), Str("x"))], {"name"});
    var d := Dump(m, false);
    assert d == [("name", Str("x"))];
    assert "n" <= "name" && "name"[1..] == "ame";
    assert d[..0] == [];
    assert StripPrefixKeys(d, "n") == Put([], RemovePrefix("name", "n"), Str("x"));
  }

  // ---------------------------------------------------------------------
  // The evident intent: remove the whole alias prefix, separator included
  // ---------------------------------------------------------------------

  /** Every key with `prefix + "__"`, the part the alias generator adds, removed. */
  function StripAliasPrefixKeys(d: Dict, prefix: string): Dict {
    Rekey(d, k => RemovePrefix(k, prefix + "__"))
  }

  /** `plain_validator` removing what the alias generator added. */
  function PlainValidatorCorrected(prefix: string, input: PlainInput, construct: Dict -> Result<Instance, Error>)
    : Result<Instance, Error>
  {
    match input
    case ModelInput(m) => construct(StripAliasPrefixKeys(Dump(m, false), prefix))
    case DictInput(d) => construct(StripAliasPrefixKeys(d, prefix))
    case OtherInput(t) => Err(ValueError("Unexpected type: <class '" + t + "'>"))
  }

  /** A dict's keys replaced by their aliases, in place. */
  function AliasKeys(d: Dict, prefix: string): Dict {
    RekeyedEntries(d, k => Alias(prefix, k))
  }

  /**
   * A dict keyed by alias is turned back into the dict keyed by field name:
   * the corrected validator builds the filter from exactly the original fields.
   */
  lemma {:induction false} AliasKeysRoundTrip(d: Dict, prefix: string, construct: Dict -> Result<Instance, Error>)
    requires UniqueKeys(d)
    ensures StripAliasPrefixKeys(AliasKeys(d, prefix), prefix) == d
    ensures PlainValidatorCorrected(prefix, DictInput(AliasKeys(d, prefix)), construct) == construct(d)
  {
    var a := AliasKeys(d, prefix);
    var f := k => RemovePrefix(k, prefix + "__");
    var e := RekeyedEntries(a, f);
    assert e == d by {
      forall i | 0 <= i < |d|
        ensures e[i] == d[i]
      {
        assert Alias(prefix, d[i].0) == (prefix + "__") + d[i].0;
        RemovePrefixOfAdded(prefix + "__", d[i].0);
      }
    }
    assert Keys(e) == Keys(d);
    RekeyWithoutCollision(a, f);
  }

  /**
   * A model whose field names do not start with `prefix + "__"` reaches the
   * filter with its field names untouched.
   */
  lemma {:induction false} CorrectedKeepsFieldNames(prefix: string, m: Instance, construct: Dict -> Result<Instance, Error>)
    requires UniqueKeys(Dump(m, false))
    requires forall k :: k in Keys(Dump(m, false)) ==> !(prefix + "__" <= k)
    ensures PlainValidatorCorrected(prefix, ModelInput(m), construct) == construct(Dump(m, false))
  {
    StripPrefixKeysUnprefixed(Dump(m, false), prefix + "__");
  }
}
