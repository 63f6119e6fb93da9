/** The grammar model: rules grouped by the name of their left-hand side,
    built once from a finished rule list, and the two read-only queries
    (nonterminals referenced but never defined, and the terminal alphabet). */
module GrammarModel {
  import opened GrammarSymbols

  /** `std::unordered_map<std::string, std::vector<GrammarRule>>`. */
  type RuleMap = map<string, seq<GrammarRule>>

  // ---------------------------------------------------------------------------
  // Specification of the grouping
  // ---------------------------------------------------------------------------

  /** The left-hand names that occur in `rules`. */
  function Names(rules: seq<GrammarRule>): set<string> {
    set r | r in rules :: r.left.name
  }

  /** The rules of `rules` whose left-hand side is named `k`, in their
      original order. */
  function RulesNamed(rules: seq<GrammarRule>, k: string): seq<GrammarRule>
    decreases |rules|
  {
    if rules == [] then []
    else
      var last := rules[|rules| - 1];
      RulesNamed(rules[..|rules| - 1], k) + (if last.left.name == k then [last] else [])
  }

  /** The table the grouping is meant to produce: one entry per left-hand
      name, holding that name's rules in input order. */
  function Grouped(rules: seq<GrammarRule>): RuleMap {
    map k | k in Names(rules) :: RulesNamed(rules, k)
  }

  /** The table invariant: every entry is non-empty and holds only rules
      whose left-hand side carries the entry's key. */
  ghost predicate WellGrouped(m: RuleMap) {
    forall k :: k in m ==>
      m[k] != [] && forall j :: 0 <= j < |m[k]| ==> m[k][j].left.name == k
  }

  /** The number of rules stored in the table, over all keys. */
  ghost function TotalRules(m: RuleMap): nat
    decreases m.Keys
  {
    if m.Keys == {} then 0
    else
      var k :| k in m.Keys;
      |m[k]| + TotalRules(m - {k})
  }

  // ---------------------------------------------------------------------------
  // Lemmas about the grouping
  // ---------------------------------------------------------------------------

  /** Appending one rule to the input adds its name and nothing else. */
  lemma NamesSnoc(rules: seq<GrammarRule>, rule: GrammarRule)
    ensures Names(rules + [rule]) == Names(rules) + {rule.left.name}
  {
  }

  /** A name has no rules exactly when it is not one of the input's names. */
  lemma {:induction false} RulesNamedEmpty(rules: seq<GrammarRule>, k: string)
    ensures RulesNamed(rules, k) == [] <==> k !in Names(rules)
    decreases |rules|
  {
    if rules != [] {
      var init, last := rules[..|rules| - 1], rules[|rules| - 1];
      assert rules == init + [last];
      NamesSnoc(init, last);
      RulesNamedEmpty(init, k);
    }
  }

  /** Every rule kept for `k` has left-hand name `k`. */
  lemma {:induction false} RulesNamedAllNamed(rules: seq<GrammarRule>, k: string)
    ensures forall j :: 0 <= j < |RulesNamed(rules, k)| ==> RulesNamed(rules, k)[j].left.name == k
    decreases |rules|
  {
    if rules != [] {
      RulesNamedAllNamed(rules[..|rules| - 1], k);
    }
  }

  /** Nothing is lost or duplicated: a rule named `k` occurs in the group
      for `k` exactly as often as in the input, and no other rule does. */
  lemma {:induction false} RulesNamedCount(rules: seq<GrammarRule>, k: string, x: GrammarRule)
    ensures multiset(RulesNamed(rules, k))[x] == if x.left.name == k then multiset(rules)[x] else 0
    decreases |rules|
  {
    if rules != [] {
      var init, last := rules[..|rules| - 1], rules[|rules| - 1];
      assert rules == init + [last];
      RulesNamedCount(init, k, x);
    }
  }

  /** Grouping respects order: the rules of a concatenation are the rules
      of the first part followed by those of the second. */
  lemma {:induction false} RulesNamedAppend(a: seq<GrammarRule>, b: seq<GrammarRule>, k: string)
    ensures RulesNamed(a + b, k) == RulesNamed(a, k) + RulesNamed(b, k)
    decreases |b|
  {
    if b != [] {
      var init, last := b[..|b| - 1], b[|b| - 1];
      assert b == init + [last];
      assert (a + b)[..|a + b| - 1] == a + init;
      assert (a + b)[|a + b| - 1] == last;
      RulesNamedAppend(a, init, k);
    } else {
      assert a + b == a;
    }
  }

  /** One step of the constructor's loop: grouping one more rule creates its
      name's entry when it is new, and otherwise appends it to that entry. */
  lemma GroupedSnoc(rules: seq<GrammarRule>, rule: GrammarRule)
    ensures var g, k := Grouped(rules), rule.left.name;
      Grouped(rules + [rule]) == if k in g then g[k := g[k] + [rule]] else g[k := [rule]]
  {
    var s, g, k := rules + [rule], Grouped(rules), rule.left.name;
    assert s[..|s| - 1] == rules;
    NamesSnoc(rules, rule);
    RulesNamedEmpty(rules, k);
    var expected := if k in g then g[k := g[k] + [rule]] else g[k := [rule]];
    assert Grouped(s).Keys == expected.Keys;
    forall n | n in expected ensures Grouped(s)[n] == expected[n] {
      assert RulesNamed(s, n) == RulesNamed(rules, n) + (if n == k then [rule] else []);
    }
  }

  /** The shape of the grouped table: its keys are exactly the input's
      names, it satisfies the table invariant, and every input rule is
      stored under its own name. */
  lemma GroupedShape(rules: seq<GrammarRule>)
    ensures Grouped(rules).Keys == Names(rules)
    ensures WellGrouped(Grouped(rules))
    ensures forall x :: x in rules ==> x in Grouped(rules)[x.left.name]
  {
    var g: RuleMap := Grouped(rules);
    forall k: string | k in g
      ensures g[k] != []
      ensures forall j: int :: 0 <= j < |g[k]| ==> g[k][j].left.name == k
    {
      RulesNamedEmpty(rules, k);
      RulesNamedAllNamed(rules, k);
    }
    forall x | x in rules ensures x in g[x.left.name] {
      RulesNamedCount(rules, x.left.name, x);
      assert x in multiset(RulesNamed(rules, x.left.name));
    }
  }

  /** Removing one key removes exactly that key's rules from the total,
      whichever key the total happened to pick first. */
  lemma TotalRulesRemove(m: RuleMap, k: string)
    requires k in m
    ensures TotalRules(m) == |m[k]| + TotalRules(m - {k})
    decreases m.Keys
  {
    var k' :| k' in m.Keys && TotalRules(m) == |m[k']| + TotalRules(m - {k'});
    if k' != k {
      TotalRulesRemove(m - {k'}, k);
      TotalRulesRemove(m - {k}, k');
      assert m - {k'} - {k} == m - {k} - {k'};
    }
  }

  /** Replacing the entry for `k` changes the total by the change in that
      entry's length. */
  lemma TotalRulesUpdate(m: RuleMap, k: string, v: seq<GrammarRule>)
    ensures TotalRules(m[k := v]) + (if k in m then |m[k]| else 0) == TotalRules(m) + |v|
  {
    TotalRulesRemove(m[k := v], k);
    if k in m {
      TotalRulesRemove(m, k);
      assert m[k := v] - {k} == m - {k};
    } else {
      assert m[k := v] - {k} == m;
    }
  }

  /** No rule is lost or duplicated: the per-key lists add up to the input. */
  lemma {:induction false} GroupedTotal(rules: seq<GrammarRule>)
    ensures TotalRules(Grouped(rules)) == |rules|
    decreases |rules|
  {
    if rules == [] {
      assert Grouped(rules) == map[];
    } else {
      var init, last := rules[..|rules| - 1], rules[|rules| - 1];
      assert rules == init + [last];
      GroupedTotal(init);
      GroupedSnoc(init, last);
      var g, k := Grouped(init), last.left.name;
      TotalRulesUpdate(g, k, if k in g then g[k] + [last] else [last]);
    }
  }

  // ---------------------------------------------------------------------------
  // Symbol occurrence
  // ---------------------------------------------------------------------------

  /** The symbols of all alternatives, in order. */
  function Flatten(alts: seq<seq<Symbol>>): seq<Symbol>
    decreases |alts|
  {
    if alts == [] then [] else alts[0] + Flatten(alts[1..])
  }

  /** Every symbol of every alternative of every rule in `rules`. */
  function ListSymbols(rules: seq<GrammarRule>): seq<Symbol>
    decreases |rules|
  {
    if rules == [] then [] else Flatten(rules[0].right.production) + ListSymbols(rules[1..])
  }

  lemma {:induction false} InFlatten(alts: seq<seq<Symbol>>, s: Symbol)
    ensures s in Flatten(alts) <==> exists j :: 0 <= j < |alts| && s in alts[j]
    decreases |alts|
  {
    if alts != [] {
      InFlatten(alts[1..], s);
      if s in Flatten(alts[1..]) {
        var j :| 0 <= j < |alts[1..]| && s in alts[1..][j];
        assert s in alts[j + 1];
      }
      if exists j :: 0 <= j < |alts| && s in alts[j] {
        var j :| 0 <= j < |alts| && s in alts[j];
        if j > 0 { assert s in alts[1..][j - 1]; }
      }
    }
  }

  /** A symbol is among `ListSymbols(rules)` exactly when some alternative
      of some rule contains it. */
  lemma {:induction false} InListSymbols(rules: seq<GrammarRule>, s: Symbol)
    ensures s in ListSymbols(rules) <==>
      exists i, j :: 0 <= i < |rules| && 0 <= j < |rules[i].right.production| &&
        s in rules[i].right.production[j]
    decreases |rules|
  {
    if rules != [] {
      InFlatten(rules[0].right.production, s);
      InListSymbols(rules[1..], s);
      if s in ListSymbols(rules[1..]) {
        var i, j :| 0 <= i < |rules[1..]| && 0 <= j < |rules[1..][i].right.production| &&
          s in rules[1..][i].right.production[j];
        assert s in rules[i + 1].right.production[j];
      }
      if exists i, j :: 0 <= i < |rules| && 0 <= j < |rules[i].right.production| &&
          s in rules[i].right.production[j] {
        var i, j :| 0 <= i < |rules| && 0 <= j < |rules[i].right.production| &&
          s in rules[i].right.production[j];
        if i > 0 { assert s in rules[1..][i - 1].right.production[j]; }
      }
    }
  }

  /** `s` occurs in some alternative of some rule stored in the table. */
  ghost predicate Occurs(m: RuleMap, s: Symbol) {
    exists k, i, j :: k in m && 0 <= i < |m[k]| && 0 <= j < |m[k][i].right.production| &&
      s in m[k][i].right.production[j]
  }

  /** `s` occurs among the rules stored under one of the keys `keys`. */
  ghost predicate SeenIn(m: RuleMap, keys: set<string>, s: Symbol) {
    exists k :: k in keys && k in m && s in ListSymbols(m[k])
  }

  /** Scanning every key finds exactly the symbols that occur in the table. */
  lemma SeenAllIffOccurs(m: RuleMap)
    ensures forall s :: SeenIn(m, m.Keys, s) <==> Occurs(m, s)
  {
    forall s ensures SeenIn(m, m.Keys, s) <==> Occurs(m, s) {
      if SeenIn(m, m.Keys, s) {
        var k :| k in m.Keys && k in m && s in ListSymbols(m[k]);
        InListSymbols(m[k], s);
      }
      if Occurs(m, s) {
        var k, i, j :| k in m && 0 <= i < |m[k]| && 0 <= j < |m[k][i].right.production| &&
          s in m[k][i].right.production[j];
        InListSymbols(m[k], s);
      }
    }
  }

  /** Scanning the keys `keys` after one key `k` is scanning `keys + {k}`. */
  lemma SeenInSplit(m: RuleMap, keys: set<string>, k: string)
    requires k in keys && k in m
    ensures forall s :: SeenIn(m, keys, s) <==> SeenIn(m, keys - {k}, s) || s in ListSymbols(m[k])
  {
  }

  // ---------------------------------------------------------------------------
  // The two queries, as scans over the table
  // ---------------------------------------------------------------------------

  /** Scans `syms`, appending each nonterminal whose name is not a key of
      `m` and which `acc` does not hold yet. */
  function AddUndefined(m: RuleMap, acc: seq<NonTerminal>, syms: seq<Symbol>): (r: seq<NonTerminal>)
    ensures forall nt :: nt in r <==> nt in acc || (nt.name !in m && N(nt) in syms)
    decreases |syms|
  {
    if syms == [] then acc
    else
      var acc' := match syms[0]
        case N(nt) => if nt.name !in m && nt !in acc then acc + [nt] else acc
        case T(_) => acc;
      AddUndefined(m, acc', syms[1..])
  }

  /** Scans the rules stored under `keys`, in an unspecified key order. */
  ghost function CollectUndefined(m: RuleMap, keys: set<string>, acc: seq<NonTerminal>): (r: seq<NonTerminal>)
    requires keys <= m.Keys
    ensures forall nt :: nt in r <==> nt in acc || (nt.name !in m && SeenIn(m, keys, N(nt)))
    decreases keys
  {
    if keys == {} then acc
    else
      var k :| k in keys;
      SeenInSplit(m, keys, k);
      CollectUndefined(m, keys - {k}, AddUndefined(m, acc, ListSymbols(m[k])))
  }

  /** Scans `syms`, appending each terminal that `acc` does not hold yet. */
  function AddTerminals(acc: seq<Terminal>, syms: seq<Symbol>): (r: seq<Terminal>)
    ensures forall t :: t in r <==> t in acc || T(t) in syms
    decreases |syms|
  {
    if syms == [] then acc
    else
      var acc' := match syms[0]
        case T(t) => if t !in acc then acc + [t] else acc
        case N(_) => acc;
      AddTerminals(acc', syms[1..])
  }

  /** Scans the rules stored under `keys`, in an unspecified key order. */
  ghost function CollectTerminals(m: RuleMap, keys: set<string>, acc: seq<Terminal>): (r: seq<Terminal>)
    requires keys <= m.Keys
    ensures forall t :: t in r <==> t in acc || SeenIn(m, keys, T(t))
    decreases keys
  {
    if keys == {} then acc
    else
      var k :| k in keys;
      SeenInSplit(m, keys, k);
      CollectTerminals(m, keys - {k}, AddTerminals(acc, ListSymbols(m[k])))
  }

  // ---------------------------------------------------------------------------
  // The grammar object
  // ---------------------------------------------------------------------------

  class Grammar {
    var ruleMap: RuleMap

    /** Groups `rules` by left-hand name, visiting them in order: the first
        rule of a name creates its entry, later ones are appended to it. */
    constructor (rules: seq<GrammarRule>)
      ensures ruleMap == Grouped(rules)
      ensures WellGrouped(ruleMap)
      ensures ruleMap.Keys == Names(rules)
      ensures forall k :: k in ruleMap ==> ruleMap[k] == RulesNamed(rules, k)
      ensures TotalRules(ruleMap) == |rules|
    {
      ruleMap := map[];
      new;
      for i := 0 to |rules|
        invariant ruleMap == Grouped(rules[..i])
      {
        var rule := rules[i];
        assert rules[..i + 1] == rules[..i] + [rule];
        GroupedSnoc(rules[..i], rule);
        if rule.left.name !in ruleMap {
          ruleMap := ruleMap[rule.left.name := [rule]];
        } else {
          ruleMap := ruleMap[rule.left.name := ruleMap[rule.left.name] + [rule]];
        }
      }
      assert rules[..|rules|] == rules;
      GroupedShape(rules);
      GroupedTotal(rules);
    }

    /** The nonterminals that occur in some alternative of some stored rule
        but have no entry in the table. Reading the table only. */
    ghost function FindUndefinedNonTerminals(): (r: seq<NonTerminal>)
      reads this
      ensures forall nt :: nt in r <==> nt.name !in ruleMap && Occurs(ruleMap, N(nt))
      ensures r == [] <==> forall nt :: Occurs(ruleMap, N(nt)) ==> nt.name in ruleMap
    {
      SeenAllIffOccurs(ruleMap);
      var r := CollectUndefined(ruleMap, ruleMap.Keys, []);
      assert r != [] ==> r[0] in r;
      r
    }

    /** The terminals that occur in some alternative of some stored rule.
        Reading the table only. */
    ghost function ExtractTerminals(): (r: seq<Terminal>)
      reads this
      ensures forall t :: t in r <==> Occurs(ruleMap, T(t))
    {
      SeenAllIffOccurs(ruleMap);
      CollectTerminals(ruleMap, ruleMap.Keys, [])
    }
  }
}
