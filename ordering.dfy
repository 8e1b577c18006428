/**
 * What the two ordering validators of the base filter compute, as
 * functions over the token sequence: the base name of a token, the
 * stripped tokens, the usages of each base name, the duplicated names and
 * the ambiguous tokens listed in the duplicate error.
 */
module Ordering {
  import opened Results
  import opened Text
  import opened Values

  // ---------------------------------------------------------------------
  // Base names
  // ---------------------------------------------------------------------

  /**
   * The field name an ordering token refers to: the token with EVERY
   * direction marker removed, wherever it stands (see `BaseNameIsReplace`).
   */
  function BaseName(token: string): string {
    if token == [] then []
    else (if token[0] == '-' || token[0] == '+' then [] else [token[0]]) + BaseName(token[1..])
  }

  /** `BaseName` is `token.replace("-", "").replace("+", "")`. */
  lemma {:induction false} BaseNameIsReplace(token: string)
    ensures BaseName(token) == RemoveAll(RemoveAll(token, '-'), '+')
  {
    if token != [] {
      BaseNameIsReplace(token[1..]);
      var once := RemoveAll(token, '-');
      if token[0] != '-' {
        assert once == [token[0]] + RemoveAll(token[1..], '-');
        assert once[1..] == RemoveAll(token[1..], '-');
        calc {
          RemoveAll(once, '+');
          (if token[0] == '+' then [] else [token[0]]) + RemoveAll(once[1..], '+');
          (if token[0] == '+' then [] else [token[0]]) + BaseName(token[1..]);
          BaseName(token);
        }
      } else {
        assert once == RemoveAll(token[1..], '-');
      }
    }
  }

  /** A base name holds no direction marker. */
  lemma {:induction false} BaseNameHasNoMarker(token: string)
    ensures '-' !in BaseName(token) && '+' !in BaseName(token)
  {
    if token != [] {
      BaseNameHasNoMarker(token[1..]);
    }
  }

  /** A direction marker in front does not change the field a token names. */
  lemma DirectionIgnored(name: string)
    ensures BaseName("-" + name) == BaseName(name)
    ensures BaseName("+" + name) == BaseName(name)
  {
    assert ("-" + name)[1..] == name;
    assert ("+" + name)[1..] == name;
  }

  /** Markers are removed piece by piece. */
  lemma {:induction false} BaseNameConcat(a: string, b: string)
    ensures BaseName(a + b) == BaseName(a) + BaseName(b)
  {
    if a == [] {
      assert a + b == b;
    } else {
      assert (a + b)[0] == a[0] && (a + b)[1..] == a[1..] + b;
      BaseNameConcat(a[1..], b);
    }
  }

  /** A marker-free name is its own base name. */
  lemma {:induction false} BaseNameOfPlainName(name: string)
    requires '-' !in name && '+' !in name
    ensures BaseName(name) == name
  {
    if name != [] {
      BaseNameOfPlainName(name[1..]);
      assert name == [name[0]] + name[1..];
    }
  }

  // ---------------------------------------------------------------------
  // strip_order_by_values
  // ---------------------------------------------------------------------

  /**
   * The list `strip_order_by_values` builds: each token stripped, the blank
   * ones dropped. Every kept token is non-empty and stripped.
   */
  function StripTokens(tokens: seq<string>): (r: seq<string>)
    ensures |r| <= |tokens|
    ensures forall k :: 0 <= k < |r| ==> r[k] != [] && IsStripped(r[k])
  {
    if tokens == [] then []
    else
      var last := Strip(tokens[|tokens| - 1]);
      StripSpec(tokens[|tokens| - 1]);
      StripTokens(tokens[..|tokens| - 1]) + (if last == [] then [] else [last])
  }

  /** Tokens are processed one by one, in order: stripping distributes over concatenation. */
  lemma {:induction false} StripTokensConcat(a: seq<string>, b: seq<string>)
    ensures StripTokens(a + b) == StripTokens(a) + StripTokens(b)
    decreases |b|
  {
    if b == [] {
      assert a + b == a;
    } else {
      var n := |b| - 1;
      var ab := a + b;
      assert ab[..|ab| - 1] == a + b[..n];
      assert ab[|ab| - 1] == b[n];
      var last := Strip(b[n]);
      var tail := if last == [] then [] else [last];
      StripTokensConcat(a, b[..n]);
      calc {
        StripTokens(ab);
        StripTokens(a + b[..n]) + tail;
        (StripTokens(a) + StripTokens(b[..n])) + tail;
        StripTokens(a) + (StripTokens(b[..n]) + tail);
        StripTokens(a) + StripTokens(b);
      }
    }
  }

  /** A single token is kept, stripped, unless it is blank. */
  lemma StripTokensSingle(t: string)
    ensures StripTokens([t]) == if AllSpace(t) then [] else [Strip(t)]
  {
    assert [t][..0] == [];
    StripSpec(t);
  }

  /** A token survives stripping exactly when it is the non-empty strip of some input token. */
  lemma {:induction false} StripTokensMembers(tokens: seq<string>, x: string)
    ensures x in StripTokens(tokens) <==> x != [] && exists t :: t in tokens && Strip(t) == x
  {
    if tokens != [] {
      var n := |tokens| - 1;
      var init := tokens[..n];
      StripTokensMembers(init, x);
      assert tokens == init + [tokens[n]];
      if x in StripTokens(tokens) && x !in StripTokens(init) {
        assert x == Strip(tokens[n]);
      }
      if x != [] && exists t :: t in tokens && Strip(t) == x {
        var t :| t in tokens && Strip(t) == x;
        if t != tokens[n] {
          assert t in init;
        }
      }
    }
  }

  /** Already stripped, non-blank tokens are left as they are. */
  lemma {:induction false} StripTokensFixed(tokens: seq<string>)
    requires forall k :: 0 <= k < |tokens| ==> tokens[k] != [] && IsStripped(tokens[k])
    ensures StripTokens(tokens) == tokens
  {
    if tokens != [] {
      var n := |tokens| - 1;
      StripTokensFixed(tokens[..n]);
      StripFixesStripped(tokens[n]);
      assert tokens == tokens[..n] + [tokens[n]];
    }
  }

  /** Stripping the stripped tokens again changes nothing. */
  lemma StripTokensIdempotent(tokens: seq<string>)
    ensures StripTokens(StripTokens(tokens)) == StripTokens(tokens)
  {
    StripTokensFixed(StripTokens(tokens));
  }

  /** Nothing is kept exactly when every token is blank. */
  lemma {:induction false} StripTokensEmpty(tokens: seq<string>)
    ensures StripTokens(tokens) == [] <==> forall k :: 0 <= k < |tokens| ==> AllSpace(tokens[k])
  {
    if tokens != [] {
      var n := |tokens| - 1;
      StripTokensEmpty(tokens[..n]);
      StripSpec(tokens[n]);
      assert forall k :: 0 <= k < n ==> tokens[..n][k] == tokens[k];
    }
  }

  // ---------------------------------------------------------------------
  // validate_order_by
  // ---------------------------------------------------------------------

  /** `f"{name} is not a valid ordering field."` */
  function UnknownFieldMessage(name: string): string {
    name + " is not a valid ordering field."
  }

  /** The duplicate error's message, naming the ordering field and the ambiguous tokens. */
  function AmbiguousMessage(orderingFieldName: string, ambiguous: seq<string>): string {
    "Field names can appear at most once for " + orderingFieldName + ". "
      + "The following was ambiguous: " + Join(", ", ambiguous) + "."
  }

  /**
   * The base name of the first token, in token order, whose base name is not
   * an attribute of the target model; None when every one is.
   */
  function FirstUnknown(attrs: set<string>, tokens: seq<string>): Option<string> {
    if tokens == [] then None
    else if BaseName(tokens[0]) !in attrs then Some(BaseName(tokens[0]))
    else FirstUnknown(attrs, tokens[1..])
  }

  /**
   * None exactly when every base name is an attribute; otherwise the name
   * reported is the base name of some token and is not an attribute.
   */
  lemma {:induction false} FirstUnknownSpec(attrs: set<string>, tokens: seq<string>)
    ensures FirstUnknown(attrs, tokens).None? <==> forall k :: 0 <= k < |tokens| ==> BaseName(tokens[k]) in attrs
    ensures FirstUnknown(attrs, tokens).Some? ==>
      exists k :: 0 <= k < |tokens| && FirstUnknown(attrs, tokens).value == BaseName(tokens[k])
        && BaseName(tokens[k]) !in attrs
  {
    if tokens != [] {
      FirstUnknownSpec(attrs, tokens[1..]);
      assert forall k :: 1 <= k < |tokens| ==> tokens[1..][k - 1] == tokens[k];
      if BaseName(tokens[0]) in attrs && FirstUnknown(attrs, tokens).Some? {
        var k :| 0 <= k < |tokens[1..]| && FirstUnknown(attrs, tokens).value == BaseName(tokens[1..][k])
          && BaseName(tokens[1..][k]) !in attrs;
        assert tokens[1..][k] == tokens[k + 1];
      }
    }
  }

  /** Over two runs of tokens, the first unknown name is found in the first run if it has one. */
  lemma {:induction false} FirstUnknownConcat(attrs: set<string>, a: seq<string>, b: seq<string>)
    ensures FirstUnknown(attrs, a + b) ==
      if FirstUnknown(attrs, a).None? then FirstUnknown(attrs, b) else FirstUnknown(attrs, a)
  {
    if a == [] {
      assert a + b == b;
    } else {
      assert (a + b)[0] == a[0] && (a + b)[1..] == a[1..] + b;
      FirstUnknownConcat(attrs, a[1..], b);
    }
  }

  /** The first unknown token, by position, is the one reported. */
  lemma {:induction false} FirstUnknownAt(attrs: set<string>, tokens: seq<string>, k: nat)
    requires k < |tokens| && BaseName(tokens[k]) !in attrs
    requires forall j :: 0 <= j < k ==> BaseName(tokens[j]) in attrs
    ensures FirstUnknown(attrs, tokens) == Some(BaseName(tokens[k]))
  {
    if k > 0 {
      FirstUnknownAt(attrs, tokens[1..], k - 1);
    }
  }

  /** `field_name_usages[name]`: the tokens with base name `name`, in token order. */
  function Usages(tokens: seq<string>, name: string): seq<string> {
    if tokens == [] then []
    else
      var n := |tokens| - 1;
      Usages(tokens[..n], name) + (if BaseName(tokens[n]) == name then [tokens[n]] else [])
  }

  lemma {:induction false} UsagesMembers(tokens: seq<string>, name: string, t: string)
    ensures t in Usages(tokens, name) <==> t in tokens && BaseName(t) == name
  {
    if tokens != [] {
      var n := |tokens| - 1;
      UsagesMembers(tokens[..n], name, t);
      assert tokens == tokens[..n] + [tokens[n]];
    }
  }

  lemma {:induction false} UsagesConcat(a: seq<string>, b: seq<string>, name: string)
    ensures Usages(a + b, name) == Usages(a, name) + Usages(b, name)
    decreases |b|
  {
    if b == [] {
      assert a + b == a;
    } else {
      var n := |b| - 1;
      var ab := a + b;
      assert ab[..|ab| - 1] == a + b[..n];
      assert ab[|ab| - 1] == b[n];
      UsagesConcat(a, b[..n], name);
    }
  }

  /** Taking the usages of one name out of another name's usages. */
  lemma {:induction false} UsagesOfUsages(tokens: seq<string>, m: string, name: string)
    ensures Usages(Usages(tokens, m), name) == if m == name then Usages(tokens, m) else []
  {
    if tokens != [] {
      var n := |tokens| - 1;
      UsagesOfUsages(tokens[..n], m, name);
      var tail := if BaseName(tokens[n]) == m then [tokens[n]] else [];
      UsagesConcat(Usages(tokens[..n], m), tail, name);
      if tail != [] {
        assert tail[..0] == [];
      }
    }
  }

  /** A name has at least one usage exactly when some token has it as base name. */
  lemma {:induction false} UsagesNonEmpty(tokens: seq<string>, name: string)
    ensures |Usages(tokens, name)| >= 1 <==> exists i :: 0 <= i < |tokens| && BaseName(tokens[i]) == name
  {
    if tokens != [] {
      var n := |tokens| - 1;
      var init := tokens[..n];
      UsagesNonEmpty(init, name);
      if exists i :: 0 <= i < |tokens| && BaseName(tokens[i]) == name {
        var i :| 0 <= i < |tokens| && BaseName(tokens[i]) == name;
        if i < n {
          assert BaseName(init[i]) == name;
        }
      }
      if exists i :: 0 <= i < |init| && BaseName(init[i]) == name {
        var i :| 0 <= i < |init| && BaseName(init[i]) == name;
        assert BaseName(tokens[i]) == name;
      }
    }
  }

  /** A name has two usages exactly when two different tokens have it as base name. */
  lemma {:induction false} UsagesTwice(tokens: seq<string>, name: string)
    ensures |Usages(tokens, name)| >= 2 <==>
      exists i, j :: 0 <= i < j < |tokens| && BaseName(tokens[i]) == name && BaseName(tokens[j]) == name
  {
    if exists i, j :: 0 <= i < j < |tokens| && BaseName(tokens[i]) == name && BaseName(tokens[j]) == name {
      var i, j :| 0 <= i < j < |tokens| && BaseName(tokens[i]) == name && BaseName(tokens[j]) == name;
      UsagesOfPair(tokens, name, i, j);
    }
    if |Usages(tokens, name)| >= 2 {
      var i, j := UsagesPair(tokens, name);
    }
  }

  /** Two tokens with the same base name give that name two usages. */
  lemma {:induction false} UsagesOfPair(tokens: seq<string>, name: string, i: nat, j: nat)
    requires i < j < |tokens| && BaseName(tokens[i]) == name && BaseName(tokens[j]) == name
    ensures |Usages(tokens, name)| >= 2
  {
    var n := |tokens| - 1;
    var init := tokens[..n];
    assert init[i] == tokens[i];
    if j < n {
      assert init[j] == tokens[j];
      UsagesOfPair(init, name, i, j);
    } else {
      UsagesNonEmpty(init, name);
    }
  }

  /** A name with two usages is the base name of two different tokens. */
  lemma {:induction false} UsagesPair(tokens: seq<string>, name: string) returns (i: nat, j: nat)
    requires |Usages(tokens, name)| >= 2
    ensures i < j < |tokens| && BaseName(tokens[i]) == name && BaseName(tokens[j]) == name
  {
    var n := |tokens| - 1;
    var init := tokens[..n];
    if |Usages(init, name)| >= 2 {
      i, j := UsagesPair(init, name);
      assert init[i] == tokens[i] && init[j] == tokens[j];
    } else {
      UsagesNonEmpty(init, name);
      i :| 0 <= i < |init| && BaseName(init[i]) == name;
      assert init[i] == tokens[i];
      j := n;
    }
  }

  /** `duplicated_field_names` at the end of the loop: the names used at least twice. */
  function Duplicated(tokens: seq<string>): set<string> {
    if tokens == [] then {}
    else
      var n := |tokens| - 1;
      var name := BaseName(tokens[n]);
      Duplicated(tokens[..n]) + (if |Usages(tokens[..n], name)| >= 1 then {name} else {})
  }

  /** A name is duplicated exactly when it has at least two usages. */
  lemma {:induction false} DuplicatedSpec(tokens: seq<string>, name: string)
    ensures name in Duplicated(tokens) <==> |Usages(tokens, name)| >= 2
  {
    if tokens != [] {
      DuplicatedSpec(tokens[..|tokens| - 1], name);
    }
  }

  /** A base name is duplicated exactly when two tokens name it, whatever their markers. */
  lemma DuplicatedIff(tokens: seq<string>, name: string)
    ensures name in Duplicated(tokens) <==>
      exists i, j :: 0 <= i < j < |tokens| && BaseName(tokens[i]) == name && BaseName(tokens[j]) == name
  {
    DuplicatedSpec(tokens, name);
    UsagesTwice(tokens, name);
  }

  /** No name is duplicated exactly when the tokens' base names are pairwise distinct. */
  lemma NoDuplicatesIff(tokens: seq<string>)
    ensures Duplicated(tokens) == {} <==>
      forall i, j :: 0 <= i < j < |tokens| ==> BaseName(tokens[i]) != BaseName(tokens[j])
  {
    if Duplicated(tokens) != {} {
      var name :| name in Duplicated(tokens);
      DuplicatedIff(tokens, name);
    } else {
      forall i, j | 0 <= i < j < |tokens|
        ensures BaseName(tokens[i]) != BaseName(tokens[j])
      {
        DuplicatedIff(tokens, BaseName(tokens[i]));
      }
    }
  }

  /** The comprehension over the sorted names: each name's usages, name after name. */
  function Gather(names: seq<string>, tokens: seq<string>): (r: seq<string>)
  {
    if names == [] then [] else Usages(tokens, names[0]) + Gather(names[1..], tokens)
  }

  /** The tokens the duplicate error lists. */
  function AmbiguousTokens(tokens: seq<string>): seq<string> {
    Gather(SortSet(Duplicated(tokens)), tokens)
  }

  lemma {:induction false} GatherMembers(names: seq<string>, tokens: seq<string>, t: string)
    ensures t in Gather(names, tokens) <==> t in tokens && BaseName(t) in names
  {
    if names != [] {
      GatherMembers(names[1..], tokens, t);
      UsagesMembers(tokens, names[0], t);
      assert names == [names[0]] + names[1..];
    }
  }

  lemma {:induction false} GatherUsages(names: seq<string>, tokens: seq<string>, name: string)
    requires Distinct(names)
    ensures Usages(Gather(names, tokens), name) == if name in names then Usages(tokens, name) else []
  {
    if names != [] {
      assert Distinct(names[1..]) by {
        forall i, j | 0 <= i < j < |names[1..]| ensures names[1..][i] != names[1..][j] {
          assert names[1..][i] == names[i + 1] && names[1..][j] == names[j + 1];
        }
      }
      GatherUsages(names[1..], tokens, name);
      UsagesConcat(Usages(tokens, names[0]), Gather(names[1..], tokens), name);
      UsagesOfUsages(tokens, names[0], name);
      assert names == [names[0]] + names[1..];
      assert name == names[0] ==> name !in names[1..];
    }
  }

  lemma {:induction false} GatherSorted(names: seq<string>, tokens: seq<string>)
    requires StrictlyAscending(names)
    ensures forall i, j :: 0 <= i < j < |Gather(names, tokens)| ==>
      Below(BaseName(Gather(names, tokens)[i]), BaseName(Gather(names, tokens)[j]))
  {
    if names != [] {
      var head := Usages(tokens, names[0]);
      var rest := Gather(names[1..], tokens);
      GatherSorted(names[1..], tokens);
      BelowReflexive(names[0]);
      var g := Gather(names, tokens);
      assert g == head + rest;
      forall i, j | 0 <= i < j < |g|
        ensures Below(BaseName(g[i]), BaseName(g[j]))
      {
        if j < |head| {
          assert g[i] == head[i] && g[j] == head[j];
          UsagesMembers(tokens, names[0], head[i]);
          UsagesMembers(tokens, names[0], head[j]);
        } else if i < |head| {
          assert g[i] == head[i] && g[j] == rest[j - |head|];
          UsagesMembers(tokens, names[0], head[i]);
          GatherMembers(names[1..], tokens, rest[j - |head|]);
          var k :| 0 <= k < |names[1..]| && names[1..][k] == BaseName(g[j]);
          assert names[1..][k] == names[k + 1];
        } else {
          assert g[i] == rest[i - |head|] && g[j] == rest[j - |head|];
        }
      }
    }
  }

  lemma StrictlyAscendingDistinct(names: seq<string>)
    requires StrictlyAscending(names)
    ensures Distinct(names)
  {
  }

  /**
   * The ambiguous tokens are exactly the tokens whose base name is
   * duplicated: no token of a name used once is listed.
   */
  lemma AmbiguousTokensMembers(tokens: seq<string>, t: string)
    ensures t in AmbiguousTokens(tokens) <==> t in tokens && BaseName(t) in Duplicated(tokens)
  {
    SortSetSpec(Duplicated(tokens));
    GatherMembers(SortSet(Duplicated(tokens)), tokens, t);
  }

  /**
   * Restricted to one base name, the ambiguous tokens are all that name's
   * tokens in their original order if the name is duplicated, and none
   * otherwise.
   */
  lemma AmbiguousTokensGroups(tokens: seq<string>, name: string)
    ensures Usages(AmbiguousTokens(tokens), name) ==
      if name in Duplicated(tokens) then Usages(tokens, name) else []
  {
    SortSetSpec(Duplicated(tokens));
    StrictlyAscendingDistinct(SortSet(Duplicated(tokens)));
    GatherUsages(SortSet(Duplicated(tokens)), tokens, name);
  }

  /** The groups come by ascending base name. */
  lemma AmbiguousTokensSorted(tokens: seq<string>)
    ensures forall i, j :: 0 <= i < j < |AmbiguousTokens(tokens)| ==>
      Below(BaseName(AmbiguousTokens(tokens)[i]), BaseName(AmbiguousTokens(tokens)[j]))
  {
    SortSetSpec(Duplicated(tokens));
    GatherSorted(SortSet(Duplicated(tokens)), tokens);
  }
}
