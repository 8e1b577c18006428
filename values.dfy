/**
 * Field values, ordered dictionaries and the errors the filter core raises.
 */
module Values {
  import opened Results

  /**
   * A field value as a filter instance holds it. List-valued fields hold
   * strings only (a list default of other elements cannot be joined).
   */
  datatype Value = Null | Bool(b: bool) | Int(i: int) | Str(s: string) | StrList(items: seq<string>)

  /** Python's `not value`. */
  predicate Falsy(v: Value) {
    match v
    case Null => true
    case Bool(b) => !b
    case Int(i) => i == 0
    case Str(s) => s == []
    case StrList(items) => items == []
  }

  /** One entry of pydantic's error list: location, message and error kind. */
  datatype ErrorDetail = ErrorDetail(loc: seq<string>, msg: string, kind: string)

  datatype Error =
    | ValueError(msg: string)                          // raised inside a validator
    | ValidationError(details: seq<ErrorDetail>)       // raised by constructing a filter
    | ConfigError(msg: string)                         // the AttributeError of a misconfigured filter
    | RequestValidationError(details: seq<ErrorDetail>) // the web layer's request error

  /** A Python dict: its entries in insertion order. */
  type Dict = seq<(string, Value)>

  function Keys(d: Dict): (ks: seq<string>)
    ensures |ks| == |d|
    ensures forall i :: 0 <= i < |d| ==> ks[i] == d[i].0
  {
    if d == [] then [] else [d[0].0] + Keys(d[1..])
  }

  predicate Distinct<T(==)>(xs: seq<T>) {
    forall i, j :: 0 <= i < j < |xs| ==> xs[i] != xs[j]
  }

  predicate UniqueKeys(d: Dict) {
    Distinct(Keys(d))
  }

  /** `d.get(k)`: the value of the first entry with key `k`. */
  function Lookup(d: Dict, k: string): (r: Option<Value>)
    ensures r.Some? <==> k in Keys(d)
    ensures r.Some? ==> (k, r.value) in d
  {
    if d == [] then None
    else if d[0].0 == k then Some(d[0].1)
    else Lookup(d[1..], k)
  }

  /**
   * `d[k] = v`: an existing key keeps its place and takes the new value, a
   * new key goes at the end.
   */
  function Put(d: Dict, k: string, v: Value): (r: Dict)
    ensures Keys(r) == if k in Keys(d) then Keys(d) else Keys(d) + [k]
  {
    if d == [] then [(k, v)]
    else if d[0].0 == k then [(k, v)] + d[1..]
    else [d[0]] + Put(d[1..], k, v)
  }

  /** After `d[k] = v`, key `k` reads `v` and every other key reads as before. */
  lemma {:induction false} PutLookup(d: Dict, k: string, v: Value)
    ensures Lookup(Put(d, k, v), k) == Some(v)
    ensures forall k' :: k' != k ==> Lookup(Put(d, k, v), k') == Lookup(d, k')
  {
    if d != [] && d[0].0 != k {
      PutLookup(d[1..], k, v);
    }
  }

  lemma PutKeepsUniqueKeys(d: Dict, k: string, v: Value)
    requires UniqueKeys(d)
    ensures UniqueKeys(Put(d, k, v))
  {
  }

  /**
   * `{f(k): v for k, v in d.items()}`: every entry re-keyed, in order; when
   * two keys map to the same new key, the later value wins at the earlier
   * place.
   */
  function Rekey(d: Dict, f: string -> string): (r: Dict)
    ensures UniqueKeys(r)
  {
    if d == [] then []
    else
      var init := Rekey(d[..|d| - 1], f);
      PutKeepsUniqueKeys(init, f(d[|d| - 1].0), d[|d| - 1].1);
      Put(init, f(d[|d| - 1].0), d[|d| - 1].1)
  }

  /** The new key of every entry: where `Rekey` puts them when none collide. */
  function RekeyedEntries(d: Dict, f: string -> string): (r: Dict)
    ensures |r| == |d|
    ensures forall i :: 0 <= i < |d| ==> r[i] == (f(d[i].0), d[i].1)
  {
    seq(|d|, i requires 0 <= i < |d| => (f(d[i].0), d[i].1))
  }

  /** When the new keys are distinct, re-keying keeps every entry in its place. */
  lemma {:induction false} RekeyWithoutCollision(d: Dict, f: string -> string)
    requires Distinct(Keys(RekeyedEntries(d, f)))
    ensures Rekey(d, f) == RekeyedEntries(d, f)
  {
    if d != [] {
      var n := |d| - 1;
      var init := d[..n];
      assert Keys(RekeyedEntries(init, f)) == Keys(RekeyedEntries(d, f))[..n];
      RekeyWithoutCollision(init, f);
      var k := f(d[n].0);
      assert Keys(RekeyedEntries(d, f))[n] == k;
      assert k !in Keys(Rekey(init, f));
      assert Rekey(d, f) == Put(Rekey(init, f), k, d[n].1);
      assert Keys(Put(Rekey(init, f), k, d[n].1)) == Keys(Rekey(init, f)) + [k];
      PutFresh(Rekey(init, f), k, d[n].1);
    }
  }

  lemma {:induction false} PutFresh(d: Dict, k: string, v: Value)
    requires k !in Keys(d)
    ensures Put(d, k, v) == d + [(k, v)]
  {
    if d != [] {
      assert Keys(d) == [d[0].0] + Keys(d[1..]);
      PutFresh(d[1..], k, v);
    }
  }

  /**
   * `a` is `b` with some entries left out, the rest in their order.
   */
  predicate Subsequence<T(==)>(a: seq<T>, b: seq<T>)
    decreases |b|
  {
    if a == [] then true
    else if b == [] then false
    else if a[0] == b[0] then Subsequence(a[1..], b[1..])
    else Subsequence(a, b[1..])
  }
}
