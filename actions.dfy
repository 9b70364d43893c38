/** The action catalog of `text_to_instance`: one production-rule entry per rule the grammar
    engine allows, the map from rule text to catalog position, and the gold action sequence
    translated into catalog positions. */
module Actions {
  import opened Wrappers
  import opened Errors
  import opened Text

  /** One catalog entry (a ProductionRuleField): the rule text, whether its nonterminal is
      grammar-wide, and the nonterminal. */
  datatype ProductionRule = ProductionRule(rule: string, isGlobal: bool, nonterminal: string)

  /** The entry built for one rule of the catalog. `isGlobalRule` is the grammar engine's
      `is_global_rule`. The rule text is passed through `' '.join(rule.split(' '))`. */
  function CatalogEntry(rule: string, isGlobalRule: string -> bool): (r: Result<ProductionRule, ReaderError>)
    ensures r.Success? <==> Nonterminal(rule).Success?
    ensures r.Success? ==>
      && r.value.rule == rule
      && Nonterminal(rule) == Success(r.value.nonterminal)
      && r.value.isGlobal == isGlobalRule(r.value.nonterminal)
    ensures r.Failure? ==> r.error == UnpackError(rule)
  {
    var nonterminal :- Nonterminal(rule);
    var stored := Join(Split(rule, " "), " ");
    JoinSplit(rule, " ");
    Success(ProductionRule(stored, isGlobalRule(nonterminal), nonterminal))
  }

  /** The entries built for the rules in order, or the error of the first rule for which
      building fails: a loop that appends, ended by the first exception. */
  function EntriesUntilFailure(rules: seq<string>, entry: string -> Result<ProductionRule, ReaderError>)
    : (r: Result<seq<ProductionRule>, ReaderError>)
    ensures r.Success? <==> forall k :: 0 <= k < |rules| ==> entry(rules[k]).Success?
    ensures r.Success? ==> |r.value| == |rules|
    ensures r.Success? ==> forall k :: 0 <= k < |rules| ==> entry(rules[k]) == Success(r.value[k])
    decreases |rules|
  {
    if rules == [] then
      Success([])
    else
      var n := |rules| - 1;
      assert forall k :: 0 <= k < n ==> rules[..n][k] == rules[k];
      var entries :- EntriesUntilFailure(rules[..n], entry);
      var last :- entry(rules[n]);
      Success(entries + [last])
  }

  /** When building fails for rule `k` and for none before it, the whole list fails with
      that rule's error. */
  lemma {:induction false} FirstEntryFailure(rules: seq<string>, entry: string -> Result<ProductionRule, ReaderError>, k: nat)
    requires k < |rules| && entry(rules[k]).Failure?
    requires forall m :: 0 <= m < k ==> entry(rules[m]).Success?
    ensures EntriesUntilFailure(rules, entry) == Failure(entry(rules[k]).error)
    decreases |rules|
  {
    var n := |rules| - 1;
    assert forall m :: 0 <= m < n ==> rules[..n][m] == rules[m];
    if k < n {
      FirstEntryFailure(rules[..n], entry, k);
    }
  }

  /** The catalog: the entry of every rule of `all_actions`, or the ValueError of the first
      rule that does not unpack. */
  function Catalog(allActions: seq<string>, isGlobalRule: string -> bool): Result<seq<ProductionRule>, ReaderError> {
    EntriesUntilFailure(allActions, rule => CatalogEntry(rule, isGlobalRule))
  }

  /** Building the catalog succeeds exactly when every rule holds one arrow; it then keeps
      every rule text unchanged and in order, with the text before its arrow as nonterminal. */
  lemma CatalogSpec(allActions: seq<string>, isGlobalRule: string -> bool)
    ensures Catalog(allActions, isGlobalRule).Success? <==> forall k :: 0 <= k < |allActions| ==> SingleArrow(allActions[k])
    ensures var r := Catalog(allActions, isGlobalRule);
      r.Success? ==>
        && |r.value| == |allActions|
        && Rules(r.value) == allActions
        && forall k :: 0 <= k < |allActions| ==>
             && Nonterminal(allActions[k]) == Success(r.value[k].nonterminal)
             && r.value[k].isGlobal == isGlobalRule(r.value[k].nonterminal)
  {
    var entry := rule => CatalogEntry(rule, isGlobalRule);
    forall k | 0 <= k < |allActions| ensures entry(allActions[k]).Success? <==> SingleArrow(allActions[k]) {
      NonterminalDefinedIff(allActions[k]);
    }
  }

  /** Rule `k` is the first of the list that does not hold exactly one arrow. */
  predicate FirstUnpackFailure(allActions: seq<string>, k: int) {
    && 0 <= k < |allActions|
    && !SingleArrow(allActions[k])
    && forall m :: 0 <= m < k ==> SingleArrow(allActions[m])
  }

  /** Otherwise building fails with the ValueError of the first rule that does not unpack. */
  lemma CatalogFailure(allActions: seq<string>, isGlobalRule: string -> bool, k: int)
    requires FirstUnpackFailure(allActions, k)
    ensures Catalog(allActions, isGlobalRule) == Failure(UnpackError(allActions[k]))
  {
    var entry := rule => CatalogEntry(rule, isGlobalRule);
    forall m | 0 <= m <= k ensures entry(allActions[m]).Success? <==> SingleArrow(allActions[m]) {
      NonterminalDefinedIff(allActions[m]);
    }
    FirstEntryFailure(allActions, entry, k);
  }

  /** The loop of `text_to_instance` that appends one entry per rule of `all_actions`. */
  method BuildValidActions(allActions: seq<string>, isGlobalRule: string -> bool)
    returns (r: Result<seq<ProductionRule>, ReaderError>)
    ensures r == Catalog(allActions, isGlobalRule)
  {
    ghost var entry := rule => CatalogEntry(rule, isGlobalRule);
    var productionRuleFields: seq<ProductionRule> := [];
    for k := 0 to |allActions|
      invariant EntriesUntilFailure(allActions[..k], entry) == Success(productionRuleFields)
    {
      var productionRule := allActions[k];
      var nonterminal := Nonterminal(productionRule);
      assert forall m :: 0 <= m < k ==> allActions[..k][m] == allActions[m];
      if nonterminal.Failure? {
        FirstEntryFailure(allActions, entry, k);
        return Failure(nonterminal.error);
      }
      productionRule := Join(Split(productionRule, " "), " ");
      var field := ProductionRule(productionRule, isGlobalRule(nonterminal.value), nonterminal.value);
      assert entry(allActions[k]) == Success(field);
      productionRuleFields := productionRuleFields + [field];
      assert allActions[..k + 1][..k] == allActions[..k];
    }
    assert allActions[..|allActions|] == allActions;
    return Success(productionRuleFields);
  }

  /** The rule texts of the catalog, in catalog order (`action.rule` of each entry). */
  function Rules(catalog: seq<ProductionRule>): (rules: seq<string>)
    ensures |rules| == |catalog|
    ensures forall k :: 0 <= k < |catalog| ==> rules[k] == catalog[k].rule
  {
    seq(|catalog|, k requires 0 <= k < |catalog| => catalog[k].rule)
  }

  /** `{action.rule: i for i, action in enumerate(...)}`: every rule is a key, and it maps to
      the LAST position that holds it. */
  function ActionMap(rules: seq<string>): (m: map<string, int>)
    ensures m.Keys == set r | r in rules
    ensures forall r :: r in m ==> 0 <= m[r] < |rules| && rules[m[r]] == r
    ensures forall r :: r in m ==> forall j :: m[r] < j < |rules| ==> rules[j] != r
    decreases |rules|
  {
    if rules == [] then
      map[]
    else
      var n := |rules| - 1;
      assert forall k :: 0 <= k < n ==> rules[..n][k] == rules[k];
      assert rules == rules[..n] + [rules[n]];
      ActionMap(rules[..n])[rules[n] := n]
  }

  /** No rule text appears twice in the catalog. */
  predicate Distinct(rules: seq<string>) {
    forall j, k :: 0 <= j < k < |rules| ==> rules[j] != rules[k]
  }

  /** For a catalog with distinct rules the map is the position of each rule, and its values
      are exactly the positions `0 .. N-1`. */
  lemma DistinctActionMap(rules: seq<string>)
    requires Distinct(rules)
    ensures forall k :: 0 <= k < |rules| ==> ActionMap(rules)[rules[k]] == k
    ensures forall v :: v in ActionMap(rules).Values <==> 0 <= v < |rules|
  {
    var m := ActionMap(rules);
    forall k | 0 <= k < |rules| ensures m[rules[k]] == k {
      assert rules[k] in m;
    }
    forall v | v in m.Values ensures 0 <= v < |rules| {
      var r :| r in m && m[r] == v;
    }
    forall k | 0 <= k < |rules| ensures k in m.Values {
      assert m[rules[k]] == k;
    }
  }

  /** The loop over the gold action sequence: the position of each gold rule, or the
      KeyError of the first rule the map does not hold. */
  function LookupAll(actionMap: map<string, int>, gold: seq<string>): (r: Result<seq<int>, ReaderError>)
    ensures r.Success? <==> forall k :: 0 <= k < |gold| ==> gold[k] in actionMap
    ensures r.Success? ==> |r.value| == |gold| && forall k :: 0 <= k < |gold| ==> r.value[k] == actionMap[gold[k]]
    ensures r.Failure? ==> exists k :: FirstMissing(actionMap, gold, k) && r.error == KeyError(gold[k])
    decreases |gold|
  {
    if gold == [] then
      Success([])
    else
      var n := |gold| - 1;
      assert forall k :: 0 <= k < n ==> gold[..n][k] == gold[k];
      var indices :- LookupAll(actionMap, gold[..n]);
      if gold[n] in actionMap then Success(indices + [actionMap[gold[n]]])
      else Failure(KeyError(gold[n]))
  }

  /** Gold rule `k` is the first that is not a key of the map. */
  predicate FirstMissing(actionMap: map<string, int>, gold: seq<string>, k: int) {
    && 0 <= k < |gold|
    && gold[k] !in actionMap
    && forall m :: 0 <= m < k ==> gold[m] in actionMap
  }

  /** The index list of `text_to_instance`: the looked-up positions, except that an empty gold
      sequence gives the single sentinel index -1. */
  function GoldIndices(actionMap: map<string, int>, gold: seq<string>): (r: Result<seq<int>, ReaderError>)
    ensures gold == [] ==> r == Success([-1])
    ensures gold != [] ==> (r.Success? <==> forall k :: 0 <= k < |gold| ==> gold[k] in actionMap)
    ensures gold != [] && r.Success? ==>
      |r.value| == |gold| && forall k :: 0 <= k < |gold| ==> r.value[k] == actionMap[gold[k]]
  {
    var indices :- LookupAll(actionMap, gold);
    if gold == [] then Success([-1]) else Success(indices)
  }

  /** The loop that appends one index per gold rule, then the empty-sequence sentinel. */
  method IndexActionSequence(actionMap: map<string, int>, actionSequence: seq<string>)
    returns (r: Result<seq<int>, ReaderError>)
    ensures r == GoldIndices(actionMap, actionSequence)
  {
    var indexFields: seq<int> := [];
    for k := 0 to |actionSequence|
      invariant LookupAll(actionMap, actionSequence[..k]) == Success(indexFields)
    {
      var productionRule := actionSequence[k];
      assert actionSequence[..k + 1][..k] == actionSequence[..k];
      if productionRule !in actionMap {
        assert FirstMissing(actionMap, actionSequence, k);
        var g := LookupAll(actionMap, actionSequence);
        if g.Failure? {
          var m :| FirstMissing(actionMap, actionSequence, m) && g.error == KeyError(actionSequence[m]);
          assert m == k;
        }
        return Failure(KeyError(productionRule));
      }
      indexFields := indexFields + [actionMap[productionRule]];
    }
    assert actionSequence[..|actionSequence|] == actionSequence;
    if actionSequence == [] {
      indexFields := [-1];
    }
    return Success(indexFields);
  }

  /** The catalog rules at the given positions. */
  function Decode(rules: seq<string>, indices: seq<int>): (gold: seq<string>)
    requires forall k :: 0 <= k < |indices| ==> 0 <= indices[k] < |rules|
    ensures |gold| == |indices|
  {
    seq(|indices|, k requires 0 <= k < |indices| => rules[indices[k]])
  }

  /** Round trip: for a non-empty gold sequence drawn from the catalog, indexing succeeds,
      gives one position per gold rule, and decoding the positions gives the gold sequence
      back. This holds even when the catalog repeats a rule. */
  lemma IndexRoundTrip(rules: seq<string>, gold: seq<string>)
    requires gold != []
    requires forall k :: 0 <= k < |gold| ==> gold[k] in rules
    ensures GoldIndices(ActionMap(rules), gold).Success?
    ensures var indices := GoldIndices(ActionMap(rules), gold).value;
      && |indices| == |gold|
      && (forall k :: 0 <= k < |indices| ==> 0 <= indices[k] < |rules|)
      && Decode(rules, indices) == gold
  {
    var m := ActionMap(rules);
    assert forall k :: 0 <= k < |gold| ==> gold[k] in m;
  }

  /** With distinct catalog rules, the position given for a gold rule is the only one that
      holds it. */
  lemma IndexUnique(rules: seq<string>, gold: seq<string>, k: nat, j: nat)
    requires Distinct(rules) && gold != []
    requires forall i :: 0 <= i < |gold| ==> gold[i] in rules
    requires k < |gold| && j < |rules|
    ensures GoldIndices(ActionMap(rules), gold).Success?
    ensures rules[j] == gold[k] <==> j == GoldIndices(ActionMap(rules), gold).value[k]
  {
    IndexRoundTrip(rules, gold);
    DistinctActionMap(rules);
  }

  /** A gold rule that the map lacks makes the lookup fail with the KeyError of the first
      such rule. */
  lemma MissingKey(actionMap: map<string, int>, gold: seq<string>, k: nat)
    requires k < |gold| && gold[k] !in actionMap
    ensures GoldIndices(actionMap, gold).Failure?
    ensures exists i :: 0 <= i <= k && FirstMissing(actionMap, gold, i) && GoldIndices(actionMap, gold).error == KeyError(gold[i])
  {
    assert LookupAll(actionMap, gold).Failure?;
    var i :| FirstMissing(actionMap, gold, i) && LookupAll(actionMap, gold).error == KeyError(gold[i]);
    assert i <= k;
  }

  /** A gold rule that is not in the catalog makes indexing fail with the KeyError of the
      first such rule. */
  lemma MissingGoldRule(rules: seq<string>, gold: seq<string>, k: nat)
    requires k < |gold| && gold[k] !in rules
    ensures GoldIndices(ActionMap(rules), gold).Failure?
    ensures exists i :: && 0 <= i <= k && gold[i] !in rules && (forall j :: 0 <= j < i ==> gold[j] in rules)
                        && GoldIndices(ActionMap(rules), gold).error == KeyError(gold[i])
  {
    var m := ActionMap(rules);
    MissingKey(m, gold, k);
    var i :| 0 <= i <= k && FirstMissing(m, gold, i) && GoldIndices(m, gold).error == KeyError(gold[i]);
    assert forall j :: 0 <= j < i ==> gold[j] in rules;
  }

  /** Catalog ["A -> B", "A -> C", "B -> d"] and gold ["A -> B", "B -> d"] give [0, 2]. */
  lemma IndexExample()
    ensures GoldIndices(ActionMap(["A -> B", "A -> C", "B -> d"]), ["A -> B", "B -> d"]) == Success([0, 2])
  {
    var rules := ["A -> B", "A -> C", "B -> d"];
    var gold := ["A -> B", "B -> d"];
    assert rules[0][5] != rules[1][5] && rules[0][0] != rules[2][0] && rules[1][0] != rules[2][0];
    assert Distinct(rules);
    DistinctActionMap(rules);
    var m := ActionMap(rules);
    assert m[rules[0]] == 0 && m[rules[2]] == 2;
    assert gold[0] == rules[0] && gold[1] == rules[2];
    var r := GoldIndices(m, gold);
    assert r.Success?;
    assert r.value == [0, 2];
  }
}
