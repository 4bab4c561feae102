/**
 * The `TEST_ONLY` environment variable: its tokens are sorted into an
 * include list (`only`) and an exclude list (`excludes`), and a case name is
 * selected when the include list allows it and the exclude list does not
 * name it.
 */
module Filter {
  import opened Wrappers
  import opened Text

  /** The two lists built from `TEST_ONLY`, in token order. */
  datatype FilterSpec = FilterSpec(only: seq<string>, excludes: seq<string>)

  /** `token[0] === "-"`; the empty token has no first character. */
  predicate IsExcludeToken(t: string)
  {
    |t| > 0 && t[0] == '-'
  }

  /** A token is an exclude token exactly when it is a dash followed by a
      name, and `slice(1)` gives that name back; the empty token is not one. */
  lemma DashToken(t: string, name: string)
    ensures IsExcludeToken(t) <==> |t| >= 1 && t == ['-'] + t[1..]
    ensures IsExcludeToken(['-'] + name) && (['-'] + name)[1..] == name
    ensures !IsExcludeToken("")
  {
  }

  /** The include list that appending each non-dash token builds. */
  function Includes(ts: seq<string>): seq<string>
  {
    if ts == [] then []
    else
      var last := ts[|ts| - 1];
      Includes(ts[..|ts| - 1]) + if IsExcludeToken(last) then [] else [last]
  }

  /** The exclude list that appending each dash token, less its dash, builds. */
  function Excludes(ts: seq<string>): seq<string>
  {
    if ts == [] then []
    else
      var last := ts[|ts| - 1];
      Excludes(ts[..|ts| - 1]) + if IsExcludeToken(last) then [last[1..]] else []
  }

  /** The lists for a given `TEST_ONLY`: both empty when it is unset or
      empty, and otherwise holding one entry per token between them. */
  function SpecOf(env: Option<string>): (r: FilterSpec)
    ensures env.None? || env.value == "" ==> r.only == [] && r.excludes == []
    ensures env.Some? && env.value != "" ==> |r.only| + |r.excludes| == |Tokens(env.value)| >= 1
  {
    if env.None? || env.value == "" then FilterSpec([], [])
    else
      var ts := Tokens(env.value);
      EachTokenRoutedOnce(ts);
      FilterSpec(Includes(ts), Excludes(ts))
  }

  /** The tokenising loop: each token is appended to one of the two lists. */
  method ParseTestOnly(env: Option<string>) returns (spec: FilterSpec)
    ensures spec == SpecOf(env)
  {
    var only: seq<string>, excludes: seq<string> := [], [];
    if env.Some? && env.value != "" {
      var tokens := Tokens(env.value);
      var i := 0;
      while i < |tokens|
        invariant 0 <= i <= |tokens|
        invariant only == Includes(tokens[..i])
        invariant excludes == Excludes(tokens[..i])
      {
        RouteStep(tokens, i);
        if IsExcludeToken(tokens[i]) {
          excludes := excludes + [tokens[i][1..]];
        } else {
          only := only + [tokens[i]];
        }
        i := i + 1;
      }
      assert tokens[..i] == tokens;
    }
    spec := FilterSpec(only, excludes);
  }

  /** Token `i` is appended to exactly one of the lists. */
  lemma RouteStep(ts: seq<string>, i: nat)
    requires i < |ts|
    ensures Includes(ts[..i + 1]) == Includes(ts[..i]) + if IsExcludeToken(ts[i]) then [] else [ts[i]]
    ensures Excludes(ts[..i + 1]) == Excludes(ts[..i]) + if IsExcludeToken(ts[i]) then [ts[i][1..]] else []
  {
    assert ts[..i + 1][..i] == ts[..i];
  }

  /** `xs.indexOf(x)`: the first position of `x`, or -1 when it is absent. */
  function IndexOf(xs: seq<string>, x: string): (r: int)
    ensures -1 <= r < |xs|
    ensures r == -1 <==> x !in xs
    ensures r >= 0 ==> xs[r] == x && x !in xs[..r]
  {
    if xs == [] then -1
    else if xs[0] == x then 0
    else
      var j := IndexOf(xs[1..], x);
      if j == -1 then -1 else j + 1
  }

  /** The selection test of the discovery loop, stated by list membership:
      allowed by `only` (or `only` is empty) and not named in `excludes`. */
  function Selected(spec: FilterSpec, name: string): (r: bool)
    ensures r <==> (spec.only == [] || name in spec.only) && name !in spec.excludes
  {
    !(|spec.only| > 0 && IndexOf(spec.only, name) == -1)
    && !(|spec.excludes| > 0 && IndexOf(spec.excludes, name) != -1)
  }

  /** Every token lands in exactly one of the two lists. */
  lemma {:induction false} EachTokenRoutedOnce(ts: seq<string>)
    ensures |Includes(ts)| + |Excludes(ts)| == |ts|
  {
    if ts != [] {
      EachTokenRoutedOnce(ts[..|ts| - 1]);
    }
  }

  /** Both lists only grow by appending: the lists built from a prefix of the
      tokens are prefixes of the final lists. */
  lemma {:induction false} ListsGrowByAppending(ts: seq<string>, k: nat)
    requires k <= |ts|
    ensures Includes(ts[..k]) <= Includes(ts)
    ensures Excludes(ts[..k]) <= Excludes(ts)
    decreases |ts|
  {
    if k < |ts| {
      var init := ts[..|ts| - 1];
      assert init[..k] == ts[..k];
      ListsGrowByAppending(init, k);
    } else {
      assert ts[..k] == ts;
    }
  }

  /** Where token `k` ends up: a dash token, less its dash, at the position
      equal to the number of dash tokens before it in `excludes`, and nothing
      added to `only`; any other token, unchanged, at the position equal to
      the number of non-dash tokens before it in `only`, and nothing added to
      `excludes`. So the relative order of the tokens is kept in each list. */
  lemma TokenPlacement(ts: seq<string>, k: nat)
    requires k < |ts|
    ensures IsExcludeToken(ts[k]) ==>
      && |Excludes(ts[..k])| < |Excludes(ts)|
      && Excludes(ts)[|Excludes(ts[..k])|] == ts[k][1..]
      && Includes(ts[..k + 1]) == Includes(ts[..k])
    ensures !IsExcludeToken(ts[k]) ==>
      && |Includes(ts[..k])| < |Includes(ts)|
      && Includes(ts)[|Includes(ts[..k])|] == ts[k]
      && Excludes(ts[..k + 1]) == Excludes(ts[..k])
  {
    var pre := ts[..k + 1];
    assert pre[..k] == ts[..k];
    ListsGrowByAppending(ts, k + 1);
  }

  /** A name is in `only` exactly when it is a token without a leading dash. */
  lemma {:induction false} IncludesMembership(ts: seq<string>, name: string)
    ensures name in Includes(ts) <==> name in ts && !IsExcludeToken(name)
  {
    if ts != [] {
      var init := ts[..|ts| - 1];
      IncludesMembership(init, name);
      assert ts == init + [ts[|ts| - 1]];
    }
  }

  /** A name is in `excludes` exactly when `-name` is a token. */
  lemma {:induction false} ExcludesMembership(ts: seq<string>, name: string)
    ensures name in Excludes(ts) <==> ['-'] + name in ts
  {
    if ts != [] {
      var init := ts[..|ts| - 1];
      var last := ts[|ts| - 1];
      ExcludesMembership(init, name);
      assert ts == init + [last];
      if IsExcludeToken(last) {
        assert last == ['-'] + last[1..];
      }
    }
  }

  /** With `TEST_ONLY` unset or empty, every name is selected. */
  lemma UnsetSelectsEverything(env: Option<string>, name: string)
    requires env.None? || env == Some("")
    ensures SpecOf(env) == FilterSpec([], [])
    ensures Selected(SpecOf(env), name)
  {
  }

  /** A `-name` token excludes `name`, even when `name` is also a token. */
  lemma ExcludeTokenWins(v: string, name: string)
    requires ['-'] + name in Tokens(v)
    ensures !Selected(SpecOf(Some(v)), name)
  {
    if v == "" {
      EmptyTokens();
    } else {
      ExcludesMembership(Tokens(v), name);
      assert name in SpecOf(Some(v)).excludes;
    }
  }

  /** `"".trim().split(/\s+/)` is `[""]`. */
  lemma EmptyTokens()
    ensures Tokens("") == [""]
  {
    assert Trim("") == "";
    assert WordLength("") == 0;
  }

  /** Once `TEST_ONLY` holds an include token, a name that is not one of
      its tokens is not selected. */
  lemma OnlyRestricts(v: string, name: string)
    requires SpecOf(Some(v)).only != []
    requires name !in Tokens(v)
    ensures !Selected(SpecOf(Some(v)), name)
  {
    IncludesMembership(Tokens(v), name);
  }

  /** A `TEST_ONLY` that is not empty but all whitespace trims to `""`, which
      is the single include token `""`; so no non-empty name is selected. */
  lemma BlankSelectsNothing(v: string, name: string)
    requires v != "" && AllSpace(v)
    requires name != ""
    ensures SpecOf(Some(v)) == FilterSpec([""], [])
    ensures !Selected(SpecOf(Some(v)), name)
  {
    TokensShape(v);
    assert Tokens(v)[..0] == [];
  }

  /** When every token has a leading dash, `only` stays empty and a name is
      selected exactly when it is not excluded. */
  lemma OnlyExcludeTokens(v: string, name: string)
    requires v != ""
    requires forall k :: 0 <= k < |Tokens(v)| ==> IsExcludeToken(Tokens(v)[k])
    ensures SpecOf(Some(v)).only == []
    ensures Selected(SpecOf(Some(v)), name) <==> ['-'] + name !in Tokens(v)
  {
    NoIncludeTokens(Tokens(v));
    ExcludesMembership(Tokens(v), name);
  }

  lemma {:induction false} NoIncludeTokens(ts: seq<string>)
    requires forall k :: 0 <= k < |ts| ==> IsExcludeToken(ts[k])
    ensures Includes(ts) == []
  {
    if ts != [] {
      NoIncludeTokens(ts[..|ts| - 1]);
    }
  }
}
