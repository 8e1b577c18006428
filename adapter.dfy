/**
 * The list-to-string adaptation behind `FilterDepends`: every field whose
 * type is a list (possibly behind an Optional) is offered to the web layer
 * as a string, with a list default joined by commas; every other field is
 * kept as declared.
 */
module Adapter {
  import opened Text
  import opened Values

  /**
   * A field annotation: `str`, `None`, `list` or `List[X]` (its arguments),
   * `Union[...]`/`Optional[...]`/`X | Y` (its alternatives), or any other type.
   */
  datatype Ty = StrT | NoneT | ListT(args: seq<Ty>) | UnionT(args: seq<Ty>) | OtherT(name: string)

  /** `Optional[str]`. */
  const OptionalStr: Ty := UnionT([StrT, NoneT])

  /** A field's default: none given, or a value. */
  datatype Default = Undefined | Given(v: Value)

  /** What the adaptation reads and writes of a pydantic `FieldInfo`. */
  datatype FieldInfo = FieldInfo(annotation: Ty, default: Default, hasFactory: bool)

  /** `FieldInfo.is_required()`: no default and no default factory. */
  predicate IsRequired(f: FieldInfo) {
    f.default.Undefined? && !f.hasFactory
  }

  /** `xs.index(x)`: the position of the first occurrence of `x`. */
  function IndexOf(xs: seq<Ty>, x: Ty): (k: nat)
    requires x in xs
    ensures k < |xs| && xs[k] == x && x !in xs[..k]
  {
    if xs[0] == x then 0 else 1 + IndexOf(xs[1..], x)
  }

  /** `args.remove(x)`: the first occurrence of `x` dropped, the rest kept in order. */
  function RemoveFirst(xs: seq<Ty>, x: Ty): (r: seq<Ty>)
    requires x in xs
    ensures r == xs[..IndexOf(xs, x)] + xs[IndexOf(xs, x) + 1..]
  {
    if xs[0] == x then xs[1..]
    else
      var r := [xs[0]] + RemoveFirst(xs[1..], x);
      assert xs[..IndexOf(xs, x)] == [xs[0]] + xs[1..][..IndexOf(xs[1..], x)];
      r
  }

  /**
   * The annotation the list test looks at: a union whose alternatives,
   * once one `None` is dropped, come down to exactly one is replaced by it.
   */
  function Unwrapped(annotation: Ty): (r: Ty)
    ensures r == annotation || (annotation.UnionT? && r in annotation.args)
  {
    if annotation.UnionT? then
      var args := if NoneT in annotation.args then RemoveFirst(annotation.args, NoneT) else annotation.args;
      if |args| == 1 then args[0] else annotation
    else annotation
  }

  /** `annotation is list or get_origin(annotation) is list`. */
  predicate IsListType(t: Ty) {
    t.ListT?
  }

  /** `isinstance(default, Iterable)` for the defaults a filter can hold. */
  predicate IsIterable(d: Default) {
    d.Given? && (d.v.Str? || d.v.StrList?)
  }

  /** The one-character strings of `s`: what iterating a `str` yields. */
  function Chars(s: string): (r: seq<string>)
    ensures |r| == |s|
    ensures forall i :: 0 <= i < |s| ==> r[i] == [s[i]]
  {
    seq(|s|, i requires 0 <= i < |s| => [s[i]])
  }

  /** The items iterating an iterable default yields. */
  function Items(d: Default): seq<string>
    requires IsIterable(d)
  {
    if d.v.Str? then Chars(d.v.s) else d.v.items
  }

  /** `",".join(default)` where the default is iterable; any other default as it is. */
  function JoinedDefault(d: Default): (r: Default)
    ensures r.Given? <==> d.Given?
    ensures IsIterable(d) ==> r.v.Str?
    ensures !IsIterable(d) ==> r == d
  {
    if IsIterable(d) then Given(Str(Join(",", Items(d)))) else d
  }

  /** One entry of the adapted fields: the type offered and the (copied) field info. */
  datatype Adapted = Adapted(ty: Ty, info: FieldInfo)

  /**
   * The adaptation of one field: the type offered is the declared one or a
   * string type, and of the copied field info only the default may change.
   */
  function AdaptField(f: FieldInfo): (r: Adapted)
    ensures r.ty == f.annotation || r.ty in {StrT, OptionalStr}
    ensures r.info.annotation == f.annotation && r.info.hasFactory == f.hasFactory
  {
    if IsListType(Unwrapped(f.annotation)) then
      Adapted(if IsRequired(f) then StrT else OptionalStr, f.(default := JoinedDefault(f.default)))
    else
      Adapted(f.annotation, f)
  }

  /** The names of an ordered field map. */
  function Names<T>(fields: seq<(string, T)>): (r: seq<string>)
    ensures |r| == |fields|
    ensures forall i :: 0 <= i < |fields| ==> r[i] == fields[i].0
  {
    seq(|fields|, i requires 0 <= i < |fields| => fields[i].0)
  }

  /**
   * `_list_to_str_fields`: walks the model's fields in order and records,
   * under each name, the adapted type and a copy of the field info. The
   * fields are a dict, so their names are distinct.
   */
  method ListToStrFields(fields: seq<(string, FieldInfo)>) returns (ret: seq<(string, Adapted)>)
    requires Distinct(Names(fields))
    ensures Names(ret) == Names(fields)
    ensures forall i :: 0 <= i < |fields| ==> ret[i].1 == AdaptField(fields[i].1)
  {
    ret := [];
    var i := 0;
    while i < |fields|
      invariant 0 <= i <= |fields|
      invariant |ret| == i
      invariant forall k :: 0 <= k < i ==> ret[k] == (fields[k].0, AdaptField(fields[k].1))
    {
      var (name, f) := fields[i];
      var fieldInfo := f;
      var annotation := f.annotation;
      if annotation.UnionT? {
        var args := annotation.args;
        if NoneT in args {
          args := RemoveFirst(args, NoneT);
        }
        if |args| == 1 {
          annotation := args[0];
        }
      }
      if annotation.ListT? {
        if IsIterable(fieldInfo.default) {
          fieldInfo := fieldInfo.(default := Given(Str(Join(",", Items(fieldInfo.default)))));
        }
        ret := ret + [(name, Adapted(if IsRequired(f) then StrT else OptionalStr, fieldInfo))];
      } else {
        ret := ret + [(name, Adapted(f.annotation, fieldInfo))];
      }
      i := i + 1;
    }
  }

  // ---------------------------------------------------------------------
  // What the adaptation promises
  // ---------------------------------------------------------------------

  /**
   * A list field is offered as `str` when it is required and as
   * `Optional[str]` otherwise, and its default, when iterable, becomes its
   * items joined by `","`. Every other field keeps its annotation and its
   * field info.
   */
  lemma AdaptFieldCases(f: FieldInfo)
    ensures IsListType(Unwrapped(f.annotation)) ==>
      AdaptField(f).ty in {StrT, OptionalStr} &&
      (AdaptField(f).ty == StrT <==> IsRequired(f)) &&
      AdaptField(f).info.annotation == f.annotation &&
      AdaptField(f).info.hasFactory == f.hasFactory
    ensures IsListType(Unwrapped(f.annotation)) ==> AdaptField(f).info.default == JoinedDefault(f.default)
    ensures IsListType(Unwrapped(f.annotation)) && IsIterable(f.default) ==>
      AdaptField(f).info.default == Given(Str(Join(",", Items(f.default))))
    ensures IsListType(Unwrapped(f.annotation)) && !IsIterable(f.default) ==>
      AdaptField(f).info.default == f.default
    ensures !IsListType(Unwrapped(f.annotation)) ==> AdaptField(f) == Adapted(f.annotation, f)
  {
  }

  /** `Optional[X]` and `X | None` are looked through, whichever order the alternatives come in. */
  lemma {:induction false} OptionalUnwrapped(t: Ty)
    requires t != NoneT
    ensures Unwrapped(UnionT([t, NoneT])) == t
    ensures Unwrapped(UnionT([NoneT, t])) == t
  {
    assert [t, NoneT][0] != NoneT;
    assert RemoveFirst([t, NoneT], NoneT) == [t] by {
      assert [t, NoneT][1..] == [NoneT];
    }
    assert RemoveFirst([NoneT, t], NoneT) == [t] by {
      assert [NoneT, t][1..] == [t];
    }
  }

  /**
   * A union with two or more alternatives besides `None` is not unwrapped,
   * so even when one of them is a list the field keeps its declaration.
   */
  lemma {:induction false} WideUnionKept(f: FieldInfo)
    requires f.annotation.UnionT?
    requires |f.annotation.args| >= 2
    requires NoneT in f.annotation.args ==> |f.annotation.args| >= 3
    ensures Unwrapped(f.annotation) == f.annotation
    ensures AdaptField(f) == Adapted(f.annotation, f)
  {
    if NoneT in f.annotation.args {
      assert |RemoveFirst(f.annotation.args, NoneT)| >= 2;
    }
  }

  /** An Optional list field with a list default is offered as `Optional[str]` with the joined default. */
  lemma {:induction false} OptionalListAdapted(elem: Ty, xs: seq<string>)
    ensures AdaptField(FieldInfo(UnionT([ListT([elem]), NoneT]), Given(StrList(xs)), false))
      == Adapted(OptionalStr, FieldInfo(UnionT([ListT([elem]), NoneT]), Given(Str(Join(",", xs))), false))
  {
    var f := FieldInfo(UnionT([ListT([elem]), NoneT]), Given(StrList(xs)), false);
    OptionalUnwrapped(ListT([elem]));
    ListFieldAdapted(f);
    JoinedListDefault(xs);
  }

  /** A list field: the string type its requiredness picks, and the joined default. */
  lemma ListFieldAdapted(f: FieldInfo)
    requires IsListType(Unwrapped(f.annotation))
    ensures AdaptField(f) == Adapted(if IsRequired(f) then StrT else OptionalStr, f.(default := JoinedDefault(f.default)))
  {
  }

  /** A list default is joined item by item. */
  lemma JoinedListDefault(xs: seq<string>)
    ensures JoinedDefault(Given(StrList(xs))) == Given(Str(Join(",", xs)))
  {
  }

  /**
   * The joined default of a non-empty list of comma-free strings splits back
   * on `","` into the same list: the string offered to the web layer can be
   * parsed back into the original default.
   */
  lemma {:induction false} ListDefaultRoundTrip(xs: seq<string>)
    requires xs != []
    requires forall k :: 0 <= k < |xs| ==> ',' !in xs[k]
    ensures JoinedDefault(Given(StrList(xs))).v.Str?
    ensures Split(JoinedDefault(Given(StrList(xs))).v.s, ',') == xs
  {
    SplitJoin(xs, ',');
  }

  /**
   * A `str` default passes the iterable test as well and is joined character
   * by character: `"ab"` becomes `"a,b"`, which splits into one-character
   * strings.
   */
  lemma {:induction false} StrDefaultJoinedByCharacter(s: string)
    requires s != [] && ',' !in s
    ensures JoinedDefault(Given(Str(s))) == Given(Str(Join(",", Chars(s))))
    ensures Split(JoinedDefault(Given(Str(s))).v.s, ',') == Chars(s)
  {
    forall k | 0 <= k < |s|
      ensures ',' !in Chars(s)[k]
    {
      assert Chars(s)[k] == [s[k]];
    }
    SplitJoin(Chars(s), ',');
  }
}
