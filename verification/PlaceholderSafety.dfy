/**
 When substituting one variable after the other is the same as filling all placeholders at once:
 the values must not complete, on their own or with their neighbours, the placeholder of a later
 variable.
 */
module PlaceholderSafety {
  import opened Options
  import opened Text
  import opened EmailTemplates

  // ── One pass ───────────────────────────────────────────────────────────────

  /** A template over `values`: literals have no opening brace or are one of the values. */
  predicate Over(segments: seq<Segment>, values: set<string>) {
    forall i :: 0 <= i < |segments| ==>
      match segments[i]
      case Literal(text) => '{' !in text || text in values
      case Placeholder(key) => BraceFree(key)
  }

  /** `value` ends with the first characters, two at least, of the placeholder of `key`. */
  ghost predicate EndsInside(value: string, key: string) {
    exists k :: 2 <= k <= |value| && k <= |key| + 4 && value[|value| - k..] == PlaceholderText(key)[..k]
  }

  predicate Comparable(s: string, t: string) {
    s <= t || t <= s
  }

  /** The last brace of `value` and the start of `next` begin the placeholder of `key`. */
  predicate Joins(value: string, next: string, key: string) {
    && value != "" && value[|value| - 1] == '{'
    && next != "" && Comparable(next, PlaceholderText(key)[1..])
  }

  /** No text over the values has a placeholder of `key` that starts inside a value. */
  ghost predicate Harmless(values: set<string>, key: string) {
    && (forall v :: v in values ==> !Contains(v, PlaceholderText(key)) && !EndsInside(v, key))
    && (forall v, w :: v in values && w in values ==> !Joins(v, w, key))
  }

  lemma PlaceholderStart(key: string)
    requires BraceFree(key)
    ensures var q := PlaceholderText(key)[1..];
      |q| == |key| + 3 && q == "{" + key + "}}" && q[0] == '{' && q[1] != '{' && '{' !in q[1..]
  {
    var q := PlaceholderText(key)[1..];
    assert q == "{" + key + "}}" && q[1..] == key + "}}";
    assert q[1] == (key + "}}")[0];
  }

  /** A text that starts like the rest of the placeholder does so because of a value. */
  lemma {:induction false} StartsWithValue(segments: seq<Segment>, values: set<string>, key: string)
    requires BraceFree(key) && Over(segments, values)
    requires PlaceholderText(key)[1..] <= Render(segments)
    ensures exists w :: w in values && w != "" && Comparable(w, PlaceholderText(key)[1..])
  {
    var q := PlaceholderText(key)[1..];
    PlaceholderStart(key);
    var text := Render(segments);
    assert text[0] == q[0] && text[1] == q[1];
    match segments[0]
    case Literal(w) =>
      if w == "" {
        assert text == Render(segments[1..]);
        StartsWithValue(segments[1..], values, key);
      } else {
        assert text[0] == w[0] && w[0] in w;
        PrefixesCompare(w, q, text);
        assert w in values && Comparable(w, q);
      }
    case Placeholder(k) =>
      SecondIsBrace(k, Render(segments[1..]));
  }

  lemma SecondIsBrace(key: string, rest: string)
    ensures (PlaceholderText(key) + rest)[1] == '{'
  {
  }

  lemma PrefixesCompare(s: string, t: string, text: string)
    requires s <= text && t <= text
    ensures Comparable(s, t)
  {
    if |s| <= |t| {
      assert s == t[..|s|];
    } else {
      assert t == s[..|t|];
    }
  }

  /** A placeholder of `key` that starts inside a value. */
  lemma StartInValue(v: string, o: nat, rest: seq<Segment>, values: set<string>, key: string)
    requires BraceFree(key) && Over(rest, values) && o < |v|
    requires PlaceholderText(key) <= v[o..] + Render(rest)
    ensures Contains(v, PlaceholderText(key)) || EndsInside(v, key) || exists w :: w in values && Joins(v, w, key)
  {
    var pat, u := PlaceholderText(key), v[o..];
    var text := u + Render(rest);
    PrefixesCompare(u, pat, text);
    if |u| == 1 {
      assert text[1..] == Render(rest) && pat[1..] <= text[1..];
      StartsWithValue(rest, values, key);
      var w :| w in values && w != "" && Comparable(w, pat[1..]);
      assert v[|v| - 1] == u[0] == pat[0];
      assert Joins(v, w, key);
    } else if u <= pat {
      assert v[|v| - |u|..] == u == pat[..|u|];
    }
  }

  /** In a text over harmless values no placeholder of `key` starts inside a value. */
  lemma NoStartInValue(v: string, o: nat, rest: seq<Segment>, values: set<string>, key: string)
    requires BraceFree(key) && Harmless(values, key) && v in values && Over(rest, values) && o < |v|
    ensures !(PlaceholderText(key) <= v[o..] + Render(rest))
  {
    if PlaceholderText(key) <= v[o..] + Render(rest) {
      StartInValue(v, o, rest, values, key);
    }
  }

  /** One pass over a text with harmless values fills exactly the placeholders of its name. */
  lemma {:induction false} PassOver(segments: seq<Segment>, values: set<string>, key: string, value: string)
    requires BraceFree(key) && Over(segments, values) && Harmless(values, key)
    ensures Replace(Render(segments), PlaceholderText(key), value) == Render(Filled(segments, [(key, value)]))
  {
    if segments != [] {
      var rest := segments[1..];
      PassOver(rest, values, key, value);
      LookupSingle((key, value), if segments[0].Placeholder? then segments[0].key else key);
      match segments[0] {
        case Literal(text) =>
          if '{' !in text {
            ReplaceSkips(text, Render(rest), PlaceholderText(key), value);
          } else {
            forall o | 0 <= o < |text| ensures !(PlaceholderText(key) <= text[o..] + Render(rest)) {
              NoStartInValue(text, o, rest, values, key);
            }
            ReplaceCopies(text, Render(rest), PlaceholderText(key), value);
          }
        case Placeholder(k) =>
          if k == key {
            WholeReplaced(key, Render(rest), value);
          } else {
            OtherPlaceholderKept(k, Render(rest), key, value);
          }
      }
    }
  }

  lemma WholeReplaced(key: string, rest: string, value: string)
    ensures Replace(PlaceholderText(key) + rest, PlaceholderText(key), value)
         == value + Replace(rest, PlaceholderText(key), value)
  {
    var s := PlaceholderText(key) + rest;
    assert PlaceholderText(key) <= s && s[|PlaceholderText(key)|..] == rest;
  }

  function FirstClosingBrace(s: string): nat {
    if s == [] || s[0] == '}' then 0 else 1 + FirstClosingBrace(s[1..])
  }

  lemma {:induction false} FirstClosingBraceAt(open: string, rest: string)
    requires '}' !in open
    ensures FirstClosingBrace(open + "}" + rest) == |open|
  {
    var s := open + "}" + rest;
    if open != [] {
      assert s[1..] == open[1..] + "}" + rest;
      FirstClosingBraceAt(open[1..], rest);
    }
  }

  lemma DistinctPlaceholders(key: string, other: string, rest: string)
    requires BraceFree(key) && BraceFree(other) && PlaceholderText(key) <= PlaceholderText(other) + rest
    ensures key == other
  {
    var pat, s := PlaceholderText(key), PlaceholderText(other) + rest;
    FirstClosingBraceAt("{{" + key, "}" + s[|pat|..]);
    FirstClosingBraceAt("{{" + other, "}" + rest);
    assert s == pat + s[|pat|..];
    assert s == "{{" + key + "}" + ("}" + s[|pat|..]) == "{{" + other + "}" + ("}" + rest);
    assert key == s[2..2 + |key|] && other == s[2..2 + |other|];
  }

  /** One pass on a placeholder with another name copies it. */
  lemma OtherPlaceholderKept(other: string, rest: string, key: string, value: string)
    requires BraceFree(key) && BraceFree(other) && key != other
    ensures var pat := PlaceholderText(key);
      Replace(PlaceholderText(other) + rest, pat, value) == PlaceholderText(other) + Replace(rest, pat, value)
  {
    var pat := PlaceholderText(key);
    var s := PlaceholderText(other) + rest;
    if pat <= s {
      DistinctPlaceholders(key, other, rest);
    }
    var tail := other + "}}";
    assert s[1..] == "{" + (tail + rest) && s[1..][1..] == tail + rest;
    assert s[1] == '{' && s[2] == (tail + rest)[0] != '{';
    assert !(pat <= s[1..]) by {
      assert pat[1] == '{' && s[1..][1] == s[2];
    }
    ReplaceSkips(tail, rest, pat, value);
    assert Replace(s, pat, value) == "{" + ("{" + (tail + Replace(rest, pat, value)));
  }

  /** A variable that stands for its own placeholder changes nothing. */
  lemma {:induction false} SelfFilled(segments: seq<Segment>, key: string)
    ensures Render(Filled(segments, [(key, PlaceholderText(key))])) == Render(segments)
  {
    if segments != [] {
      SelfFilled(segments[1..], key);
      LookupSingle((key, PlaceholderText(key)), if segments[0].Placeholder? then segments[0].key else key);
    }
  }

  // ── All passes ─────────────────────────────────────────────────────────────

  lemma {:induction false} SubstitutedSnoc(s: string, vars: seq<Variable>, v: Variable)
    ensures Substituted(s, vars + [v]) == Replace(Substituted(s, vars), PlaceholderText(v.0), v.1)
    decreases |vars|
  {
    if vars == [] {
      assert vars + [v] == [v] && [v][1..] == [];
    } else {
      assert (vars + [v])[1..] == vars[1..] + [v];
      SubstitutedSnoc(Replace(s, PlaceholderText(vars[0].0), vars[0].1), vars[1..], v);
    }
  }

  lemma LookupSingle(v: Variable, key: string)
    ensures Lookup([v], key) == if v.0 == key then Some(v.1) else None
  {
    assert [v][1..] == [];
  }

  lemma {:induction false} LookupMember(vars: seq<Variable>, key: string)
    ensures Lookup(vars, key).Some? <==> exists v :: v in vars && v.0 == key
    ensures Lookup(vars, key).Some? ==> (key, Lookup(vars, key).value) in vars
  {
    if vars != [] {
      LookupMember(vars[1..], key);
      assert vars == [vars[0]] + vars[1..];
    }
  }

  lemma {:induction false} LookupFirst(vars: seq<Variable>, i: nat)
    requires i < |vars| && forall j :: 0 <= j < i ==> vars[j].0 != vars[i].0
    ensures Lookup(vars, vars[i].0) == Some(vars[i].1)
  {
    if i > 0 {
      LookupFirst(vars[1..], i - 1);
    }
  }

  lemma {:induction false} LookupSnoc(vars: seq<Variable>, v: Variable, key: string)
    ensures Lookup(vars + [v], key)
         == if Lookup(vars, key).Some? then Lookup(vars, key) else if v.0 == key then Some(v.1) else None
  {
    if vars == [] {
      assert vars + [v] == [v];
      LookupSingle(v, key);
    } else {
      assert (vars + [v])[1..] == vars[1..] + [v];
      LookupSnoc(vars[1..], v, key);
    }
  }

  /** Filling one more variable. */
  lemma {:induction false} FilledSnoc(segments: seq<Segment>, vars: seq<Variable>, v: Variable)
    ensures Filled(segments, vars + [v]) == Filled(Filled(segments, vars), [v])
  {
    if segments != [] {
      FilledSnoc(segments[1..], vars, v);
      assert Filled(segments, vars)[1..] == Filled(segments[1..], vars);
      if segments[0].Placeholder? {
        LookupSnoc(vars, v, segments[0].key);
        LookupSingle(v, segments[0].key);
      }
    }
  }

  lemma {:induction false} NothingFilled(segments: seq<Segment>)
    ensures Filled(segments, []) == segments
  {
    if segments != [] {
      NothingFilled(segments[1..]);
    }
  }

  /** The values of the first `k` variables. */
  function Values(vars: seq<Variable>, k: nat): set<string>
    requires k <= |vars|
  {
    set i | 0 <= i < k :: vars[i].1
  }

  lemma {:induction false} FilledIsOver(segments: seq<Segment>, vars: seq<Variable>, k: nat, braced: set<string>)
    requires Over(segments, braced) && k <= |vars|
    ensures Over(Filled(segments, vars[..k]), braced + Values(vars, k))
  {
    if segments != [] {
      FilledIsOver(segments[1..], vars, k, braced);
      if segments[0].Placeholder? && Lookup(vars[..k], segments[0].key).Some? {
        LookupMember(vars[..k], segments[0].key);
        var i :| 0 <= i < k && vars[..k][i] == (segments[0].key, Lookup(vars[..k], segments[0].key).value);
        assert vars[i].1 in Values(vars, k);
      }
    }
  }

  /** The pass of variable `k` fills its own placeholders only; `braced` are the literals with braces. */
  ghost predicate Steady(vars: seq<Variable>, k: nat, braced: set<string>)
    requires k < |vars|
  {
    vars[k].1 == PlaceholderText(vars[k].0) || Harmless(braced + Values(vars, k), vars[k].0)
  }

  predicate BraceFreeNames(vars: seq<Variable>) {
    forall v :: v in vars ==> BraceFree(v.0)
  }

  /** Safe in templates whose literals with opening braces are among `braced`. */
  ghost predicate SafeVariables(vars: seq<Variable>, braced: set<string>) {
    BraceFreeNames(vars) && forall k :: 0 <= k < |vars| ==> Steady(vars, k, braced)
  }

  /** After the first `k` passes the text is the template with the first `k` variables filled at once. */
  predicate SimultaneousUpTo(segments: seq<Segment>, vars: seq<Variable>, k: nat)
    requires k <= |vars|
  {
    Substituted(Render(segments), vars[..k]) == Render(Filled(segments, vars[..k]))
  }

  lemma NothingYet(segments: seq<Segment>, vars: seq<Variable>)
    ensures SimultaneousUpTo(segments, vars, 0)
  {
    NothingFilled(segments);
  }

  lemma OnePassMore(segments: seq<Segment>, vars: seq<Variable>, k: nat, braced: set<string>)
    requires Over(segments, braced) && BraceFreeNames(vars) && k < |vars|
    requires SimultaneousUpTo(segments, vars, k) && Steady(vars, k, braced)
    ensures SimultaneousUpTo(segments, vars, k + 1)
  {
    var v := vars[k];
    var filled := Filled(segments, vars[..k]);
    assert v in vars && vars[..k + 1] == vars[..k] + [v];
    SubstitutedSnoc(Render(segments), vars[..k], v);
    FilledSnoc(segments, vars[..k], v);
    if v.1 == PlaceholderText(v.0) {
      ReplaceKeepsIff(Render(filled), PlaceholderText(v.0), v.1);
      SelfFilled(filled, v.0);
    } else {
      FilledIsOver(segments, vars, k, braced);
      PassOver(filled, braced + Values(vars, k), v.0, v.1);
    }
  }

  lemma {:induction false} SafeIsSimultaneous(segments: seq<Segment>, vars: seq<Variable>, k: nat, braced: set<string>)
    requires Over(segments, braced) && SafeVariables(vars, braced) && k <= |vars|
    ensures SimultaneousUpTo(segments, vars, k)
  {
    if k == 0 {
      NothingYet(segments, vars);
    } else {
      SafeIsSimultaneous(segments, vars, k - 1, braced);
      OnePassMore(segments, vars, k - 1, braced);
    }
  }

  /** Sequential substitution of safe variables is simultaneous substitution, whatever the literals. */
  lemma SubstitutionIsSimultaneous(segments: seq<Segment>, vars: seq<Variable>, braced: set<string>)
    requires Over(segments, braced) && SafeVariables(vars, braced)
    ensures Substituted(Render(segments), vars) == Render(Filled(segments, vars))
  {
    SafeIsSimultaneous(segments, vars, |vars|, braced);
    assert vars[..|vars|] == vars;
  }

  // ── The condition is necessary ─────────────────────────────────────────────

  predicate DistinctKeys(vars: seq<Variable>) {
    forall i, j :: 0 <= i < j < |vars| ==> vars[i].0 != vars[j].0
  }

  lemma {:induction false} LookupAt(vars: seq<Variable>, k: nat, i: nat)
    requires DistinctKeys(vars) && i < k <= |vars|
    ensures Lookup(vars[..k], vars[i].0) == Some(vars[i].1)
  {
    LookupMember(vars[..k], vars[i].0);
    assert vars[..k][i] == vars[i];
  }

  lemma FilledCons(head: Segment, rest: seq<Segment>, vars: seq<Variable>, filled: Segment)
    requires filled == if head.Placeholder? && Lookup(vars, head.key).Some? then Literal(Lookup(vars, head.key).value)
                       else head
    ensures Filled([head] + rest, vars) == [filled] + Filled(rest, vars)
  {
    assert ([head] + rest)[1..] == rest;
  }

  /** `piece` is filled with `value` by the first `k` variables. */
  predicate FilledWith(piece: Segment, value: string, vars: seq<Variable>, k: nat)
    requires k <= |vars|
  {
    match piece
    case Literal(text) => text == value
    case Placeholder(key) => Lookup(vars[..k], key) == Some(value)
  }

  /** A piece of template that comes out as a given literal or value of an earlier variable. */
  lemma PieceFor(value: string, vars: seq<Variable>, k: nat, braced: set<string>)
    returns (piece: Segment)
    requires DistinctKeys(vars) && BraceFreeNames(vars) && k <= |vars| && value in braced + Values(vars, k)
    ensures FilledWith(piece, value, vars, k) && Over([piece], braced)
  {
    if value in braced {
      piece := Literal(value);
    } else {
      var i :| 0 <= i < k && vars[i].1 == value;
      LookupAt(vars, k, i);
      assert vars[i] in vars;
      piece := Placeholder(vars[i].0);
    }
  }

  lemma TwoFilled(piece: Segment, value: string, text: string, vars: seq<Variable>, k: nat)
    requires k <= |vars| && FilledWith(piece, value, vars, k)
    ensures Filled([piece, Literal(text)], vars[..k]) == [Literal(value), Literal(text)]
  {
    LiteralsStay([Literal(text)], vars[..k]);
    FilledCons(piece, [Literal(text)], vars[..k], Literal(value));
    assert [piece] + [Literal(text)] == [piece, Literal(text)];
  }

  lemma ThreeFilled(piece: Segment, value: string, next: Segment, other: string, text: string, vars: seq<Variable>, k: nat)
    requires k <= |vars| && FilledWith(piece, value, vars, k) && FilledWith(next, other, vars, k)
    ensures Filled([piece, next, Literal(text)], vars[..k]) == [Literal(value), Literal(other), Literal(text)]
  {
    TwoFilled(next, other, text, vars, k);
    FilledCons(piece, [next, Literal(text)], vars[..k], Literal(value));
    assert [piece] + [next, Literal(text)] == [piece, next, Literal(text)];
  }

  lemma {:induction false} LiteralsStay(segments: seq<Segment>, vars: seq<Variable>)
    requires forall i :: 0 <= i < |segments| ==> segments[i].Literal?
    ensures Filled(segments, vars) == segments
  {
    if segments != [] {
      LiteralsStay(segments[1..], vars);
    }
  }

  /** A template whose filled text is all literal and yet contains the placeholder of variable `k`. */
  lemma Breaks(segments: seq<Segment>, literals: seq<Segment>, vars: seq<Variable>, k: nat)
    requires k < |vars| && vars[k].1 != PlaceholderText(vars[k].0)
    requires Filled(segments, vars[..k]) == literals
    requires forall i :: 0 <= i < |literals| ==> literals[i].Literal?
    requires Contains(Render(literals), PlaceholderText(vars[k].0))
    requires SimultaneousUpTo(segments, vars, k)
    ensures !SimultaneousUpTo(segments, vars, k + 1)
  {
    assert vars[..k + 1] == vars[..k] + [vars[k]];
    SubstitutedSnoc(Render(segments), vars[..k], vars[k]);
    FilledSnoc(segments, vars[..k], vars[k]);
    LiteralsStay(literals, [vars[k]]);
    ReplaceKeepsIff(Render(literals), PlaceholderText(vars[k].0), vars[k].1);
  }

  /** Every template is filled simultaneously by the first `k` variables. */
  ghost predicate AlwaysSimultaneous(vars: seq<Variable>, k: nat, braced: set<string>)
    requires k <= |vars|
  {
    forall segments :: Over(segments, braced) ==> SimultaneousUpTo(segments, vars, k)
  }

  lemma RenderCons(head: Segment, rest: seq<Segment>)
    ensures Render([head] + rest) == SegmentText(head) + Render(rest)
  {
    assert ([head] + rest)[1..] == rest;
  }

  lemma RenderTwo(v: string, text: string)
    ensures Render([Literal(v), Literal(text)]) == v + text
  {
    RenderCons(Literal(v), [Literal(text)]);
    RenderCons(Literal(text), []);
    assert [Literal(v)] + [Literal(text)] == [Literal(v), Literal(text)] && [Literal(text)] + [] == [Literal(text)];
    assert text + Render([]) == text;
  }

  lemma RenderThree(v: string, w: string, text: string)
    ensures Render([Literal(v), Literal(w), Literal(text)]) == v + (w + text)
  {
    RenderCons(Literal(v), [Literal(w), Literal(text)]);
    RenderTwo(w, text);
    assert [Literal(v)] + [Literal(w), Literal(text)] == [Literal(v), Literal(w), Literal(text)];
  }

  lemma BrokenByValue(value: string, text: string, vars: seq<Variable>, k: nat, braced: set<string>)
    requires DistinctKeys(vars) && BraceFreeNames(vars) && k < |vars| && value in braced + Values(vars, k)
    requires vars[k].1 != PlaceholderText(vars[k].0)
    requires '{' !in text && Contains(value + text, PlaceholderText(vars[k].0))
    ensures !AlwaysSimultaneous(vars, k, braced) || !AlwaysSimultaneous(vars, k + 1, braced)
  {
    var piece := PieceFor(value, vars, k, braced);
    var t := [piece, Literal(text)];
    assert [piece][0] == piece && Over(t, braced);
    if AlwaysSimultaneous(vars, k, braced) {
      TwoFilled(piece, value, text, vars, k);
      RenderTwo(value, text);
      assert SimultaneousUpTo(t, vars, k);
      Breaks(t, [Literal(value), Literal(text)], vars, k);
    }
  }

  lemma BrokenByPair(value: string, other: string, text: string, vars: seq<Variable>, k: nat, braced: set<string>)
    requires DistinctKeys(vars) && BraceFreeNames(vars) && k < |vars|
    requires value in braced + Values(vars, k) && other in braced + Values(vars, k)
    requires vars[k].1 != PlaceholderText(vars[k].0)
    requires '{' !in text && Contains(value + (other + text), PlaceholderText(vars[k].0))
    ensures !AlwaysSimultaneous(vars, k, braced) || !AlwaysSimultaneous(vars, k + 1, braced)
  {
    var piece := PieceFor(value, vars, k, braced);
    var next := PieceFor(other, vars, k, braced);
    var t := [piece, next, Literal(text)];
    assert [piece][0] == piece && [next][0] == next && Over(t, braced);
    if AlwaysSimultaneous(vars, k, braced) {
      ThreeFilled(piece, value, next, other, text, vars, k);
      RenderThree(value, other, text);
      assert SimultaneousUpTo(t, vars, k);
      Breaks(t, [Literal(value), Literal(other), Literal(text)], vars, k);
    }
  }

  /** A value that ends inside a placeholder is completed by a text without opening braces. */
  lemma Completion(v: string, key: string)
    returns (text: string)
    requires BraceFree(key) && EndsInside(v, key)
    ensures '{' !in text && Contains(v + text, PlaceholderText(key))
  {
    var pat := PlaceholderText(key);
    var n :| 2 <= n <= |v| && n <= |key| + 4 && v[|v| - n..] == pat[..n];
    text := pat[n..];
    TailBraceFree(key, n);
    CompletedText(v, n, pat);
  }

  lemma TailBraceFree(key: string, n: nat)
    requires BraceFree(key) && 2 <= n <= |key| + 4
    ensures '{' !in PlaceholderText(key)[n..]
  {
    PlaceholderStart(key);
    var pat := PlaceholderText(key);
    assert forall i :: n <= i < |pat| ==> pat[i] == pat[1..][1..][i - 2];
  }

  lemma CompletedText(v: string, n: nat, pat: string)
    requires n <= |v| && n <= |pat| && v[|v| - n..] == pat[..n]
    ensures Contains(v + pat[n..], pat)
  {
    assert (v + pat[n..])[|v| - n..] == v[|v| - n..] + pat[n..] == pat;
  }

  /** Likewise for two values that join. */
  lemma JoinCompletion(v: string, w: string, key: string)
    returns (text: string)
    requires BraceFree(key) && Joins(v, w, key)
    ensures '{' !in text && Contains(v + (w + text), PlaceholderText(key))
  {
    var q := PlaceholderText(key)[1..];
    PlaceholderStart(key);
    if w <= q {
      text := q[|w|..];
      TailBraceFree(key, |w| + 1);
      assert text == PlaceholderText(key)[|w| + 1..] && w + text == q;
    } else {
      text := "";
      assert w + text == w;
    }
    JoinedText(v, w + text, key);
  }

  lemma JoinedText(v: string, rest: string, key: string)
    requires v != "" && v[|v| - 1] == '{' && PlaceholderText(key)[1..] <= rest
    ensures Contains(v + rest, PlaceholderText(key))
  {
    var s, o := v + rest, |v| - 1;
    assert s[o..] == ['{'] + rest;
    assert PlaceholderText(key) == ['{'] + PlaceholderText(key)[1..];
  }

  /**
   For variables with distinct names and any literals with braces: every template is filled
   simultaneously after every pass if and only if the variables are safe.
   */
  lemma SimultaneousThroughoutIff(vars: seq<Variable>, braced: set<string>)
    requires DistinctKeys(vars) && BraceFreeNames(vars)
    ensures (forall k :: 0 <= k <= |vars| ==> AlwaysSimultaneous(vars, k, braced)) <==> SafeVariables(vars, braced)
  {
    if SafeVariables(vars, braced) {
      forall k, segments | 0 <= k <= |vars| && Over(segments, braced) ensures SimultaneousUpTo(segments, vars, k) {
        SafeIsSimultaneous(segments, vars, k, braced);
      }
    }
    if forall k :: 0 <= k <= |vars| ==> AlwaysSimultaneous(vars, k, braced) {
      forall k | 0 <= k < |vars| ensures Steady(vars, k, braced) {
        SteadyIsNecessary(vars, k, braced);
      }
    }
  }

  lemma SteadyIsNecessary(vars: seq<Variable>, k: nat, braced: set<string>)
    requires DistinctKeys(vars) && BraceFreeNames(vars) && k < |vars|
    requires AlwaysSimultaneous(vars, k, braced) && AlwaysSimultaneous(vars, k + 1, braced)
    ensures Steady(vars, k, braced)
  {
    var key, values := vars[k].0, braced + Values(vars, k);
    assert vars[k] in vars;
    if vars[k].1 != PlaceholderText(key) {
      forall v | v in values ensures !Contains(v, PlaceholderText(key)) && !EndsInside(v, key) {
        if Contains(v, PlaceholderText(key)) {
          assert v + "" == v;
          BrokenByValue(v, "", vars, k, braced);
        }
        if EndsInside(v, key) {
          var text := Completion(v, key);
          BrokenByValue(v, text, vars, k, braced);
        }
      }
      forall v, w | v in values && w in values ensures !Joins(v, w, key) {
        if Joins(v, w, key) {
          var text := JoinCompletion(v, w, key);
          BrokenByPair(v, w, text, vars, k, braced);
        }
      }
    }
  }

  /** No literal has an opening brace. */
  predicate WellFormed(segments: seq<Segment>) {
    Over(segments, {})
  }

  /**
   Two variables: every template is filled simultaneously if and only if the second stands for its
   own placeholder, or the value of the first does not contain that placeholder, does not end
   inside it, and does not begin it when repeated.
   */
  lemma TwoVariablesIff(a: string, b: string, value: string, later: string)
    requires BraceFree(a) && BraceFree(b) && a != b
    ensures var vars := [(a, value), (b, later)];
      (forall segments :: WellFormed(segments) ==> FinallySimultaneous(segments, vars))
      <==> || later == PlaceholderText(b)
           || (!Contains(value, PlaceholderText(b)) && !EndsInside(value, b) && !Joins(value, value, b))
  {
    var vars := [(a, value), (b, later)];
    FirstIsSteady(vars);
    SecondSteadyIff(vars);
    FullIsAll(vars);
    if AlwaysSimultaneous(vars, 2, {}) {
      OneVariableAlways(vars);
      SteadyIsNecessary(vars, 1, {});
    }
    if Steady(vars, 1, {}) {
      assert SafeVariables(vars, {});
      SimultaneousThroughoutIff(vars, {});
    }
  }

  lemma FirstIsSteady(vars: seq<Variable>)
    requires vars != []
    ensures Steady(vars, 0, {})
  {
    assert {} + Values(vars, 0) == {};
  }

  lemma SecondSteadyIff(vars: seq<Variable>)
    requires |vars| == 2
    ensures var (v, b) := (vars[0].1, vars[1].0);
      Steady(vars, 1, {})
      <==> (|| vars[1].1 == PlaceholderText(b)
            || (!Contains(v, PlaceholderText(b)) && !EndsInside(v, b) && !Joins(v, v, b)))
  {
    assert vars[0].1 in Values(vars, 1);
    assert {} + Values(vars, 1) == {vars[0].1};
  }

  /** After the last pass the text is the substituted one. */
  ghost predicate FinallySimultaneous(segments: seq<Segment>, vars: seq<Variable>) {
    Substituted(Render(segments), vars) == Render(Filled(segments, vars))
  }

  lemma FullIsAll(vars: seq<Variable>)
    ensures AlwaysSimultaneous(vars, |vars|, {})
      <==> forall segments :: WellFormed(segments) ==> FinallySimultaneous(segments, vars)
  {
    assert vars[..|vars|] == vars;
    forall segments ensures FinallySimultaneous(segments, vars) <==> SimultaneousUpTo(segments, vars, |vars|) {
    }
    if AlwaysSimultaneous(vars, |vars|, {}) {
      forall segments | WellFormed(segments) ensures FinallySimultaneous(segments, vars) {
        assert SimultaneousUpTo(segments, vars, |vars|);
      }
    }
    if forall segments :: WellFormed(segments) ==> FinallySimultaneous(segments, vars) {
      forall segments | Over(segments, {}) ensures SimultaneousUpTo(segments, vars, |vars|) {
        assert WellFormed(segments) && FinallySimultaneous(segments, vars);
      }
    }
  }

  lemma OneVariableAlways(vars: seq<Variable>)
    requires vars != [] && BraceFreeNames(vars)
    ensures AlwaysSimultaneous(vars, 1, {})
  {
    FirstIsSteady(vars);
    forall segments | WellFormed(segments) ensures SimultaneousUpTo(segments, vars, 1) {
      NothingYet(segments, vars);
      OnePassMore(segments, vars, 0, {});
    }
  }

  /**
   A value is looked at again by the variables after it: a template that is one placeholder is
   filled as it should be exactly when its value does not contain the later placeholder (or that
   placeholder stands for itself).
   */
  lemma {:induction false} NestedPlaceholderIsExpanded(a: string, b: string, value: string, later: string)
    requires BraceFree(a) && BraceFree(b) && a != b
    ensures var vars := [(a, value), (b, later)];
      && Substituted(PlaceholderText(a), vars) == Replace(value, PlaceholderText(b), later)
      && Render(Filled([Placeholder(a)], vars)) == value
      && (Substituted(PlaceholderText(a), vars) == Render(Filled([Placeholder(a)], vars))
          <==> !Contains(value, PlaceholderText(b)) || later == PlaceholderText(b))
  {
    var vars := [(a, value), (b, later)];
    assert vars == ([] + [(a, value)]) + [(b, later)];
    SubstitutedSnoc(PlaceholderText(a), [(a, value)], (b, later));
    SubstitutedSnoc(PlaceholderText(a), [], (a, value));
    assert [] + [(a, value)] == [(a, value)] && PlaceholderText(a) + "" == PlaceholderText(a);
    WholeReplaced(a, "", value);
    assert value + "" == value;
    FilledCons(Placeholder(a), [], vars, Literal(value));
    RenderCons(Literal(value), []);
    assert [Placeholder(a)] + [] == [Placeholder(a)] && [Literal(value)] + [] == [Literal(value)];
    ReplaceKeepsIff(value, PlaceholderText(b), later);
  }

  // ── An exception behind the last pass ──────────────────────────────────────

  /** `m` written out as what its value looks like. */
  function Expanded(segments: seq<Segment>, m: string, n: string, b: string): seq<Segment> {
    if segments == [] then []
    else
      (if segments[0] == Placeholder(m) then [Placeholder(n), Placeholder(b)] else [segments[0]])
      + Expanded(segments[1..], m, n, b)
  }

  lemma {:induction false} ExpandedOver(segments: seq<Segment>, m: string, n: string, b: string)
    requires WellFormed(segments) && BraceFree(n) && BraceFree(b)
    ensures WellFormed(Expanded(segments, m, n, b))
  {
    if segments != [] {
      ExpandedOver(segments[1..], m, n, b);
    }
  }

  lemma {:induction false} RenderConcat(a: seq<Segment>, b: seq<Segment>)
    ensures Render(a + b) == Render(a) + Render(b)
  {
    if a == [] {
      assert a + b == b;
    } else {
      assert (a + b)[1..] == a[1..] + b;
      RenderConcat(a[1..], b);
    }
  }

  lemma {:induction false} FilledConcat(a: seq<Segment>, b: seq<Segment>, vars: seq<Variable>)
    ensures Filled(a + b, vars) == Filled(a, vars) + Filled(b, vars)
  {
    if a == [] {
      assert a + b == b;
    } else {
      assert (a + b)[1..] == a[1..] + b;
      FilledConcat(a[1..], b, vars);
    }
  }

  lemma TwoPlaceholders(n: string, b: string)
    ensures Render([Placeholder(n), Placeholder(b)]) == PlaceholderText(n) + PlaceholderText(b)
  {
    RenderCons(Placeholder(n), [Placeholder(b)]);
    RenderCons(Placeholder(b), []);
    assert [Placeholder(n)] + [Placeholder(b)] == [Placeholder(n), Placeholder(b)];
    assert [Placeholder(b)] + [] == [Placeholder(b)] && PlaceholderText(b) + "" == PlaceholderText(b);
  }

  /** Filling `m` with the text of the other two placeholders is writing them out. */
  lemma {:induction false} FilledIsExpanded(segments: seq<Segment>, m: string, n: string, b: string)
    ensures Render(Filled(segments, [(m, PlaceholderText(n) + PlaceholderText(b))]))
         == Render(Expanded(segments, m, n, b))
  {
    if segments != [] {
      var head, rest := segments[0], segments[1..];
      FilledIsExpanded(rest, m, n, b);
      LookupSingle((m, PlaceholderText(n) + PlaceholderText(b)), if head.Placeholder? then head.key else m);
      TwoPlaceholders(n, b);
      RenderConcat(if head == Placeholder(m) then [Placeholder(n), Placeholder(b)] else [head], Expanded(rest, m, n, b));
      RenderOne(head);
    }
  }

  lemma RenderOne(s: Segment)
    ensures Render([s]) == SegmentText(s)
  {
    RenderCons(s, []);
    assert [s] + [] == [s] && SegmentText(s) + "" == SegmentText(s);
  }

  lemma OneExpanded(head: Segment, m: string, n: string, b: string, value: string)
    requires m != n && m != b && n != b
    ensures Render(Filled(Expanded([head], m, n, b), [(b, ""), (n, value)]))
         == Render(Filled([head], [(m, value), (b, ""), (n, value)]))
  {
    var vars, others := [(m, value), (b, ""), (n, value)], [(b, ""), (n, value)];
    assert vars[1..] == others && [head][1..] == [];
    if head == Placeholder(m) {
      assert Expanded([head], m, n, b) == [Placeholder(n), Placeholder(b)];
      LookupFirst(others, 0);
      LookupFirst(others, 1);
      FilledCons(Placeholder(n), [Placeholder(b)], others, Literal(value));
      FilledCons(Placeholder(b), [], others, Literal(""));
      assert [Placeholder(n)] + [Placeholder(b)] == [Placeholder(n), Placeholder(b)];
      assert [Placeholder(b)] + [] == [Placeholder(b)];
      RenderTwo(value, "");
      FilledCons(head, [], vars, Literal(value));
      assert [head] + [] == [head];
      RenderOne(Literal(value));
      assert value + "" == value;
    } else {
      assert Expanded([head], m, n, b) == [head];
    }
  }

  lemma {:induction false} PieceByPiece(segments: seq<Segment>, m: string, n: string, b: string, vars: seq<Variable>,
                                        others: seq<Variable>)
    requires forall head :: Render(Filled(Expanded([head], m, n, b), others)) == Render(Filled([head], vars))
    ensures Render(Filled(Expanded(segments, m, n, b), others)) == Render(Filled(segments, vars))
  {
    if segments != [] {
      PieceByPiece(segments[1..], m, n, b, vars, others);
      FilledSplit(segments, vars);
      ExpandedSplit(segments, m, n, b, others);
    }
  }

  lemma FilledSplit(segments: seq<Segment>, vars: seq<Variable>)
    requires segments != []
    ensures Render(Filled(segments, vars)) == Render(Filled([segments[0]], vars)) + Render(Filled(segments[1..], vars))
  {
    assert segments == [segments[0]] + segments[1..];
    FilledConcat([segments[0]], segments[1..], vars);
    RenderConcat(Filled([segments[0]], vars), Filled(segments[1..], vars));
  }

  lemma ExpandedSplit(segments: seq<Segment>, m: string, n: string, b: string, vars: seq<Variable>)
    requires segments != []
    ensures Render(Filled(Expanded(segments, m, n, b), vars))
         == Render(Filled(Expanded([segments[0]], m, n, b), vars)) + Render(Filled(Expanded(segments[1..], m, n, b), vars))
  {
    var first, later := Expanded([segments[0]], m, n, b), Expanded(segments[1..], m, n, b);
    var own := if segments[0] == Placeholder(m) then [Placeholder(n), Placeholder(b)] else [segments[0]];
    assert [segments[0]][1..] == [];
    assert first == own + Expanded([], m, n, b) == own;
    assert Expanded(segments, m, n, b) == own + later;
    FilledConcat(first, later, vars);
    RenderConcat(Filled(first, vars), Filled(later, vars));
  }

  /** Then filling the other two gives the value of `m` again. */
  lemma ExpandedIsFilled(segments: seq<Segment>, m: string, n: string, b: string, value: string)
    requires m != n && m != b && n != b
    ensures Render(Filled(Expanded(segments, m, n, b), [(b, ""), (n, value)]))
         == Render(Filled(segments, [(m, value), (b, ""), (n, value)]))
  {
    var vars, others := [(m, value), (b, ""), (n, value)], [(b, ""), (n, value)];
    forall head ensures Render(Filled(Expanded([head], m, n, b), others)) == Render(Filled([head], vars)) {
      OneExpanded(head, m, n, b, value);
    }
    PieceByPiece(segments, m, n, b, vars, others);
  }

  /**
   The condition is about every pass: these three variables are not safe, since the pass of `b`
   damages the value of `m`, but the pass of `n` repairs it, and the final text of every template is
   the intended one.
   */
  lemma LaterPassRepairs(m: string, b: string, n: string)
    requires BraceFree(m) && BraceFree(b) && BraceFree(n) && m != n && m != b && n != b
    ensures var value := PlaceholderText(n) + PlaceholderText(b);
      var vars := [(m, value), (b, ""), (n, value)];
      && !SafeVariables(vars, {})
      && forall segments :: WellFormed(segments) ==> FinallySimultaneous(segments, vars)
  {
    var value := PlaceholderText(n) + PlaceholderText(b);
    var vars, others := [(m, value), (b, ""), (n, value)], [(b, ""), (n, value)];
    assert vars[0].1 in Values(vars, 1);
    assert value[|PlaceholderText(n)|..] == PlaceholderText(b);
    assert Contains(value, PlaceholderText(b));
    assert !Steady(vars, 1, {});
    assert vars[1..] == others;
    assert PlainVariables(others);
    NoLiterals(others);
    PlainIsSafe(others, {});
    forall segments | WellFormed(segments) ensures FinallySimultaneous(segments, vars) {
      NoneIsHarmless(m);
      PassOver(segments, {}, m, value);
      FilledIsExpanded(segments, m, n, b);
      ExpandedOver(segments, m, n, b);
      SubstitutionIsSimultaneous(Expanded(segments, m, n, b), others, {});
      ExpandedIsFilled(segments, m, n, b, value);
    }
  }

  lemma NoneIsHarmless(key: string)
    ensures Harmless({}, key)
  {
  }

  lemma NoLiterals(vars: seq<Variable>)
    ensures HarmlessLiterals(vars, {})
  {
  }

  // ── Values without opening braces ──────────────────────────────────────────

  /** Only the value of the last variable may contain an opening brace. */
  predicate PlainVariables(vars: seq<Variable>) {
    BraceFreeNames(vars) && forall i :: 0 <= i < |vars| - 1 ==> '{' !in vars[i].1
  }

  lemma BraceAt(v: string, i: nat, part: string)
    requires i <= |v| && part != "" && part[0] == '{' && part <= v[i..]
    ensures '{' in v
  {
    assert v[i] == part[0];
  }

  lemma HarmfulHasBrace(v: string, key: string)
    ensures Contains(v, PlaceholderText(key)) || EndsInside(v, key) ==> '{' in v
    ensures forall w :: Joins(v, w, key) ==> '{' in v
  {
    var pat := PlaceholderText(key);
    if i :| 0 <= i <= |v| && pat <= v[i..] {
      BraceAt(v, i, pat);
    }
    if n :| 2 <= n <= |v| && n <= |key| + 4 && v[|v| - n..] == pat[..n] {
      BraceAt(v, |v| - n, pat[..n]);
    }
  }

  /** Values without opening braces do no harm beside harmless literals. */
  lemma PlainIsHarmless(braced: set<string>, values: set<string>, key: string)
    requires Harmless(braced, key) && forall v :: v in values ==> '{' !in v
    ensures Harmless(braced + values, key)
  {
    forall v | v in values ensures !Contains(v, PlaceholderText(key)) && !EndsInside(v, key) && forall w :: !Joins(v, w, key) {
      HarmfulHasBrace(v, key);
    }
    forall v, w | w in values ensures !Joins(v, w, key) {
      JoinedHasBrace(v, w, key);
    }
  }

  lemma JoinedHasBrace(v: string, w: string, key: string)
    ensures Joins(v, w, key) ==> '{' in w
  {
    PlaceholderFirst(key);
    if Joins(v, w, key) {
      assert w[0] == PlaceholderText(key)[1..][0];
    }
  }

  lemma PlaceholderFirst(key: string)
    ensures PlaceholderText(key)[1..] != [] && PlaceholderText(key)[1..][0] == '{'
  {
  }

  /** The literals with braces do no harm to any variable. */
  ghost predicate HarmlessLiterals(vars: seq<Variable>, braced: set<string>) {
    forall v :: v in vars ==> Harmless(braced, v.0)
  }

  /** Brace-free values are safe. */
  lemma PlainIsSafe(vars: seq<Variable>, braced: set<string>)
    requires PlainVariables(vars) && HarmlessLiterals(vars, braced)
    ensures SafeVariables(vars, braced)
  {
    forall k | 0 <= k < |vars| ensures Steady(vars, k, braced) {
      assert vars[k] in vars;
      PlainIsHarmless(braced, Values(vars, k), vars[k].0);
    }
  }

  /** The order in which distinct variables are given does not matter. */
  lemma VariableOrderIsIrrelevant(segments: seq<Segment>, vars: seq<Variable>, reordered: seq<Variable>,
                                  braced: set<string>)
    requires Over(segments, braced) && HarmlessLiterals(vars, braced)
    requires DistinctKeys(vars) && DistinctKeys(reordered) && forall v :: v in vars <==> v in reordered
    requires forall v :: v in vars ==> BraceFree(v.0) && '{' !in v.1
    ensures Substituted(Render(segments), vars) == Substituted(Render(segments), reordered)
  {
    PlainIsSafe(vars, braced);
    PlainIsSafe(reordered, braced);
    SubstitutionIsSimultaneous(segments, vars, braced);
    SubstitutionIsSimultaneous(segments, reordered, braced);
    forall key ensures Lookup(vars, key) == Lookup(reordered, key) {
      LookupMember(vars, key);
      LookupMember(reordered, key);
    }
    FilledByLookup(segments, vars, reordered);
  }

  lemma {:induction false} FilledByLookup(segments: seq<Segment>, vars: seq<Variable>, others: seq<Variable>)
    requires forall key :: Lookup(vars, key) == Lookup(others, key)
    ensures Filled(segments, vars) == Filled(segments, others)
  {
    if segments != [] {
      FilledByLookup(segments[1..], vars, others);
    }
  }

  lemma {:induction false} FilledStaysOver(segments: seq<Segment>, vars: seq<Variable>, braced: set<string>)
    requires Over(segments, braced)
    requires forall v :: v in vars ==> '{' !in v.1
    ensures Over(Filled(segments, vars), braced)
  {
    if segments != [] {
      FilledStaysOver(segments[1..], vars, braced);
      if segments[0].Placeholder? {
        LookupMember(vars, segments[0].key);
      }
    }
  }

  /** No placeholder of a bound variable is left in the result. */
  lemma NoBoundPlaceholderSurvives(segments: seq<Segment>, vars: seq<Variable>, v: Variable, braced: set<string>)
    requires Over(segments, braced) && HarmlessLiterals(vars, braced) && v in vars
    requires forall w :: w in vars ==> BraceFree(w.0) && '{' !in w.1
    ensures !Contains(Substituted(Render(segments), vars), PlaceholderText(v.0))
  {
    PlainIsSafe(vars, braced);
    SubstitutionIsSimultaneous(segments, vars, braced);
    FilledStaysOver(segments, vars, braced);
    var filled := Filled(segments, vars);
    PassOver(filled, braced, v.0, "");
    BoundIsGone(segments, vars, v);
    ReplaceShortens(Render(filled), PlaceholderText(v.0), "");
  }

  lemma {:induction false} BoundIsGone(segments: seq<Segment>, vars: seq<Variable>, v: Variable)
    requires v in vars
    ensures Filled(Filled(segments, vars), [(v.0, "")]) == Filled(segments, vars)
  {
    if segments != [] {
      BoundIsGone(segments[1..], vars, v);
      LookupMember(vars, v.0);
      if segments[0].Placeholder? {
        LookupSingle((v.0, ""), segments[0].key);
      }
      assert Filled(segments, vars)[1..] == Filled(segments[1..], vars);
    }
  }
}
