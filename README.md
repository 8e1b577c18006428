# fastapi-filter base filter, modelled in Dafny

This project models the base filter of `fastapi-filter`
(`fastapi_filter/base/filter.py`). It covers:

- the two validators every filter runs on its ordering field:
  - `strip_order_by_values` trims each ordering token and drops the blank ones;
  - `validate_order_by` rejects tokens whose base name is not an attribute of
    the target model, then rejects base names used more than once, with an
    exact, deterministic message.
- the `filtering_fields` and `ordering_values` properties.
- prefix composition (`with_prefix`): the alias generator and `plain_validator`.
- the list-to-string field adaptation behind `FilterDepends` (`_list_to_str_fields`).
- the reconstruct-then-delegate logic of the wrapper's `filter` and `sort`.

Modules, one per file:

- `Results` (`results.dfy`): `Option` and `Result`.
- `Text` (`text.dfy`): the Python string operations the core uses:
  - `str.strip()` over Python's whitespace characters;
  - `str.replace(c, "")`;
  - `sep.join` and `str.split`;
  - string order and `sorted` over a set of strings.
- `Values` (`values.dfy`): field values, errors, and dicts as ordered entries
  with Python's assignment semantics.
- `Ordering` (`ordering.dfy`): specification functions for the two validators:
  - base names and stripped tokens;
  - the first unknown name;
  - usages, duplicated names and ambiguous tokens.
- `BaseFilter` (`base_filter.dfy`):
  - filter constants and instances;
  - `filtering_fields` and `ordering_values`;
  - the validators as methods with loops, each proved equal to its
    specification function;
  - the properties the validators promise.
- `Prefix` (`prefix.dfy`): `with_prefix`.
- `Adapter` (`adapter.dfy`): `_list_to_str_fields`, as a method with a loop.
- `Depends` (`depends.dfy`): `FilterWrapper.filter` and `FilterWrapper.sort`.

The target model's attributes are a set of names. A field's type is the
datatype `Adapter.Ty`. Constructing a filter from keyword arguments, and the
operation a concrete filter performs, are function parameters.

Three behaviours of the code are easy to miss:

- An empty or missing ordering value gives None, not an empty list.
- `validate_order_by` removes every `+` and `-` in a token, not only a leading one.
- The unknown-field error names the base name, not the token as written.

## Model

| member | source | states |
|---|---|---|
| BaseFilter.FilteringFields | fastapi_filter/base/filter.py:58-61 | The `filtering_fields` property: its entries are entries of the by-name dump, in the same order. |
| BaseFilter.FilteringFieldsExactly | fastapi_filter/base/filter.py:58-61 | `filtering_fields` holds exactly the fields that were explicitly set and are not None, minus the ordering field. Values are unchanged, declaration order is kept, and the ordering field's name is never a key. |
| BaseFilter.OrderingValues | fastapi_filter/base/filter.py:67-75 | Succeeds exactly when the filter declares the ordering field, with that field's value. Otherwise it fails with the configuration error naming the field. |
| BaseFilter.StripOrderByValues | fastapi_filter/base/filter.py:77-91 | The loop that strips tokens and keeps the non-blank ones computes `StrippedOrderBy`. For other fields it returns the value unchanged; an empty or missing value gives None. |
| BaseFilter.ValidatorsPassThrough | fastapi_filter/base/filter.py:79-99 | Both validators return any non-ordering field unchanged. Both map a falsy ordering value to None. |
| BaseFilter.StripOrderByKeeps | fastapi_filter/base/filter.py:85-91 | Every output token is non-empty and has no surrounding whitespace. A string is in the output exactly when it is the non-empty strip of an input token. |
| Ordering.StripTokensConcat | fastapi_filter/base/filter.py:86-89 | Tokens are handled one at a time: stripping a concatenation is the concatenation of the stripped parts, so relative order is kept. |
| BaseFilter.StripOrderByIdempotent | fastapi_filter/base/filter.py:82-91 | Stripping its own non-empty output again changes nothing. The output is `[]` exactly when every token is blank, and a second pass turns `[]` into None. |
| Ordering.StripTokensSingle | fastapi_filter/base/filter.py:86-89 | One token gives nothing when it is all whitespace and its strip otherwise. With `StripTokensConcat`, this fixes the output for every list. |
| Ordering.StripTokensEmpty | fastapi_filter/base/filter.py:85-91 | Nothing is kept exactly when every token is all whitespace. |
| Text.StripSpec | fastapi_filter/base/filter.py:87 | `strip()` returns a middle slice of its input with only whitespace cut from either end. The result has no whitespace at either end, and is empty exactly when the input is all whitespace. |
| BaseFilter.TallyUsages | fastapi_filter/base/filter.py:101-112 | The loop stops at the first token with an unknown base name (`FirstUnknown`). Otherwise it leaves the usage dict equal to `UsageMap` of the tokens and the duplicated set equal to `Duplicated`. |
| BaseFilter.UsageMapSpec | fastapi_filter/base/filter.py:101-110 | The `defaultdict(list)` holds, under every name, exactly that name's tokens in their original order. |
| BaseFilter.ValidateOrderBy | fastapi_filter/base/filter.py:93-127 | The validator's result, including each error and its exact message, equals `ValidatedOrderBy`. |
| Ordering.BaseNameIsReplace | fastapi_filter/base/filter.py:105 | The base name is the token with every `-` and then every `+` removed. |
| Text.RemoveAllSpec | fastapi_filter/base/filter.py:105 | `replace(c, "")` leaves no `c`, and keeps every other character exactly as many times as before. |
| Ordering.BaseNameHasNoMarker | fastapi_filter/base/filter.py:105 | A base name contains no direction marker. |
| Ordering.DirectionIgnored | fastapi_filter/base/filter.py:105 | A leading `-` or `+` does not change which field a token names. |
| BaseFilter.ScenarioMarkerInsideName | fastapi_filter/base/filter.py:105-108 | A marker inside a name is removed too: `a-b` is checked as `ab`, and the error names `ab`. |
| Ordering.FirstUnknownSpec | fastapi_filter/base/filter.py:104-108 | There is no unknown name exactly when every base name is a model attribute. Otherwise the name reported is some token's base name and is not an attribute. |
| BaseFilter.ValidateRejectsUnknown | fastapi_filter/base/filter.py:104-108 | The first token whose base name is unknown is reported by its base name, with the exact message, before any duplicate check. |
| BaseFilter.ValidateAcceptsExactly | fastapi_filter/base/filter.py:104-127 | A non-empty ordering list is accepted exactly when all base names are model attributes and pairwise distinct. An accepted list is returned unchanged. |
| BaseFilter.ValidateRejectsDuplicates | fastapi_filter/base/filter.py:110-125 | When every name is known but two tokens share a base name, the error is the ambiguity message, and it lists both tokens. |
| BaseFilter.ValidateIdempotent | fastapi_filter/base/filter.py:93-127 | A value the validator accepts is accepted again, with the same result. |
| Ordering.DuplicatedSpec | fastapi_filter/base/filter.py:110-112 | A name ends up in the duplicated set exactly when it has at least two usages. |
| Ordering.DuplicatedIff | fastapi_filter/base/filter.py:110-114 | A name is duplicated exactly when two different tokens have it as their base name, whatever their direction markers. |
| Ordering.NoDuplicatesIff | fastapi_filter/base/filter.py:114 | No name is duplicated exactly when the base names are pairwise distinct. |
| Ordering.UsagesMembers | fastapi_filter/base/filter.py:110 | The usages of a name are exactly the tokens whose base name it is. |
| Ordering.UsagesTwice | fastapi_filter/base/filter.py:111-112 | A name has two usages exactly when two different positions hold tokens with that base name. |
| Ordering.AmbiguousTokensMembers | fastapi_filter/base/filter.py:115-121 | The listed tokens are exactly the tokens of duplicated names. Tokens of names used once never appear. |
| Ordering.AmbiguousTokensGroups | fastapi_filter/base/filter.py:115-121 | Restricted to one base name, the listed tokens are all of that name's tokens in their original order if the name is duplicated, and none otherwise. |
| Ordering.AmbiguousTokensSorted | fastapi_filter/base/filter.py:118 | The groups come in ascending order of base name. |
| BaseFilter.CollectUsagesIsGather | fastapi_filter/base/filter.py:115-121 | The comprehension over the usage dict equals the specification's grouping of the tokens. |
| BaseFilter.ScenarioAmbiguousDirection | fastapi_filter/base/filter.py:110-125 | `["id", "-id"]` is rejected, and the message lists `id, -id`. |
| Text.SortSetSpec | fastapi_filter/base/filter.py:118 | `sorted` over a set yields each element once, in strictly ascending string order. |
| Text.JoinSplit | fastapi_filter/base/filter.py:216-217 | Splitting a string on a character and joining the pieces with that character gives the string back. For `,`, this makes the joined default and its split pieces determine each other. |
| Text.SplitJoin | fastapi_filter/base/filter.py:217 | Splitting the join of a non-empty list of strings that do not contain the separator gives back the list. |
| Prefix.Alias | fastapi_filter/base/filter.py:176 | The alias generator: the alias of field `s` starts with the prefix, followed by `__` and then `s`. |
| Prefix.PlainValidator | fastapi_filter/base/filter.py:183-193 | `plain_validator` as written: any input other than a model or a dict fails with a `ValueError` whose message is `Unexpected type: <class 'T'>` for the input's class `T`. A model is handled through its by-name dump. The filter is built from the dict whose keys have had `prefix` removed. |
| Prefix.AliasInjective | fastapi_filter/base/filter.py:176 | Under one prefix, different field names have different aliases. |
| Prefix.ParamNamesPrefixed | fastapi_filter/base/filter.py:152-176 | Two fields without an alias of their own get distinct parameters, and each starts with the prefix. A field that declares its own alias answers to exactly that alias, unprefixed, which is the documented limitation. |
| Prefix.RemovePrefix | fastapi_filter/base/filter.py:190 | `removeprefix` takes the prefix off a string that starts with it and leaves any other string unchanged. |
| Prefix.PlainValidatorInputs | fastapi_filter/base/filter.py:183-193 | A model input is handled as its dump. Any input that is neither a model nor a dict fails with a `ValueError`, whatever the filter constructor does. |
| Prefix.StripPrefixKeysUnprefixed | fastapi_filter/base/filter.py:190 | A dict whose keys do not start with the prefix reaches the filter unchanged. |
| Prefix.AliasStripLeavesSeparator | fastapi_filter/base/filter.py:176-190 | Removing the prefix from an alias leaves `__` in front of the field name. |
| Prefix.DictAliasKeysKeepSeparator | fastapi_filter/base/filter.py:189-191 | With prefix `n`, the dict key `n__count` reaches the filter as `__count`. |
| Prefix.ModelFieldNameLosesPrefix | fastapi_filter/base/filter.py:186-191 | With prefix `n`, a model field named `name` reaches the filter as `ame`. |
| Prefix.AliasKeysRoundTrip | fastapi_filter/base/filter.py:176-191 | With `prefix + "__"` removed, a dict keyed by aliases turns back into the dict keyed by field names, and the filter is built from exactly the original fields. |
| Prefix.CorrectedKeepsFieldNames | fastapi_filter/base/filter.py:186-191 | With `prefix + "__"` removed, a model whose field names do not start with it reaches the filter with its names untouched. |
| Adapter.Unwrapped | fastapi_filter/base/filter.py:206-211 | The annotation the list test looks at is either the declared one or one of its union alternatives. |
| Adapter.JoinedDefault | fastapi_filter/base/filter.py:216-217 | An iterable default becomes a string. Any other default, including none at all, is kept as it is. |
| Adapter.AdaptField | fastapi_filter/base/filter.py:206-220 | The type offered for a field is either its declared annotation or a string type. Of the copied field info, only the default may change. |
| Adapter.ListToStrFields | fastapi_filter/base/filter.py:200-222 | The loop keeps the field names in their order and records each field's `AdaptField` under its name. |
| Adapter.AdaptFieldCases | fastapi_filter/base/filter.py:215-220 | A list field becomes `str` if it is required and `Optional[str]` otherwise. Its default becomes its items joined by `,` when it is iterable and is otherwise kept, and nothing else in its field info changes. Every other field keeps its annotation and field info. |
| Adapter.OptionalUnwrapped | fastapi_filter/base/filter.py:206-211 | `Optional[X]` and `X \| None` are looked through, in either order of the alternatives. |
| Adapter.WideUnionKept | fastapi_filter/base/filter.py:206-213 | A union with two or more alternatives besides None is not unwrapped, and the field is kept as declared. |
| Adapter.OptionalListAdapted | fastapi_filter/base/filter.py:206-218 | An optional list field with a list default becomes `Optional[str]` with the comma-joined default. |
| Adapter.ListDefaultRoundTrip | fastapi_filter/base/filter.py:216-217 | The joined default of a non-empty list of comma-free strings splits back on `,` into the same list. |
| Adapter.StrDefaultJoinedByCharacter | fastapi_filter/base/filter.py:216-217 | A `str` default is iterable too, so it is joined character by character, and it splits back into its one-character strings. |
| Adapter.RemoveFirst | fastapi_filter/base/filter.py:208-209 | `remove` drops the first occurrence of the alternative (`IndexOf` gives its position, and no earlier alternative equals it) and keeps the others in order. |
| Depends.Wrapped | fastapi_filter/base/filter.py:240-252 | `filter` and `sort` succeed exactly when the original filter can be rebuilt from the wrapper's dump. A pydantic validation error never escapes: it is raised again as a request validation error. |
| Depends.WrappedDelegatesOnlyOnSuccess | fastapi_filter/base/filter.py:239-252 | The call is delegated, with the same operation and query, exactly when the original filter can be rebuilt. Otherwise the result does not depend on the delegate: a validation error becomes a request validation error with the same details, and any other error passes through. |
| Depends.FilterAndSortAgree | fastapi_filter/base/filter.py:240-252 | `filter` and `sort` rebuild the filter the same way, so they succeed together or fail with the same error. |
| Values.PutLookup | fastapi_filter/base/filter.py:190 | After `d[k] = v`, key `k` reads `v` and every other key reads as before. |
| Values.RekeyWithoutCollision | fastapi_filter/base/filter.py:190 | A dict comprehension that re-keys every entry keeps each entry in its place when the new keys are distinct. |

## Left out

- Pydantic internals are not part of this model. This covers `create_model`, validator registration, `ConfigDict`, `PlainValidator` and `Annotated` wiring, and `model_dump` beyond an ordered dump of declared fields. Building a filter from keyword arguments is the `construct` parameter.
- The order in which pydantic runs the two validators is not fixed by the source. Each validator is modelled on its own, and no composition is claimed.
- Reflection is replaced: `hasattr(model, name)` by membership in a set of attribute names, and `get_origin`/`get_args` by the `Ty` datatype.
- `getattr` in `ordering_values` finds only declared fields here. Methods and class attributes of the filter are not modelled.
- `ordering_values` models only the lookup, not Python's exception chaining.
- The subclass `NestedFilter` and the assignment to `NestedFilter.Constants.prefix` are not modelled as mutation. The prefix is an immutable parameter.
- FastAPI plumbing (`Depends`, the `use_cache` flag) is not modelled. `RequestValidationError` appears only as an error value.
- The abstract `filter` and `sort` bodies have no behaviour. The operation a concrete filter performs is the `delegate` parameter.
- `search_model_fields` and `search_field_name` are not used by the core.
- BaseFilter.StripOrderByValues and BaseFilter.ValidateOrderBy require that the ordering value is falsy or a list of strings. Iterating a bare string, or a value that is not iterable, is not modelled.
- Adapter.JoinedDefault: only string and list-of-string defaults can be represented. Other iterable defaults (tuple, set, dict) are not modelled. `",".join` joins them when their items are strings and raises `TypeError` when an item is not a string, and neither case is covered.
- Adapter.ListToStrFields requires distinct field names, as the dict it reads guarantees.
- Adapter.Ty admits union shapes Python's typing never builds: nested unions, unions of one alternative, and `None` listed twice. On those shapes `Unwrapped` follows the code's steps literally, and Python's `get_args` would report the shape differently, so no claim is made about them.
- The `deepcopy` of each field info has no counterpart: Dafny values are immutable, so the source fields are never changed.
- `str.strip()` trims Python's whitespace code points (`str.isspace`). Surrogates and encodings are not modelled.
- `sorted` compares strings by code point, as Python does.
- Prefix.ParamName models the documented limitation only: an explicit alias wins over the alias generator. Pydantic's full alias precedence is not modelled.

## Findings

| source | as written | input that shows it | evidently intended | confidence | as-written member | corrected member |
|---|---|---|---|---|---|---|
| fastapi_filter/base/filter.py:190 | `plain_validator` removes only `prefix` from each key. The alias generator at line 176 adds `prefix + "__"`. | A dict keyed by alias with prefix `n`: `{"n__count": 5}` reaches the filter as `{"__count": 5}`. A model with field `name` and prefix `n` reaches it as `{"ame": ...}`. | Remove `prefix + "__"`, so that alias keys map back to field names and field names are left alone. | medium, not executed | Prefix.PlainValidator (Prefix.DictAliasKeysKeepSeparator, Prefix.ModelFieldNameLosesPrefix) | Prefix.PlainValidatorCorrected (Prefix.AliasKeysRoundTrip, Prefix.CorrectedKeepsFieldNames) |
