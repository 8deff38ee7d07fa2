/**
  Whole segments: rules that share a group index are ANDed, and the groups are combined by the
  match type. Grouping laws of the compiled condition, and what it selects.
*/
module SegmentGroups {
  import opened Wrappers
  import opened Sql
  import opened AttributeTypes
  import opened SegmentCompiler
  import opened SegmentMeaning
  import opened Sorting

  // ----- compile_rules -----

  /** The rules' conditions, in order, or the first failure. */
  function CompileEach(ctx: Context, rules: seq<Rule>): (r: Result<seq<Cond>, Error>)
    ensures r.Ok? ==> |r.value| == |rules|
  {
    if rules == [] then Ok([])
    else
      var n := |rules| - 1;
      match CompileEach(ctx, rules[..n])
      case Err(e) => Err(e)
      case Ok(cs) => match RuleCondition(ctx, rules[n])
        case Err(e) => Err(e)
        case Ok(c) => Ok(cs + [c])
  }

  function Indices(rules: seq<Rule>): set<int> {
    set r | r in rules :: r.groupIndex
  }

  function GroupOf(rules: seq<Rule>, conds: seq<Cond>, g: int): seq<Cond>
    requires |rules| == |conds|
  {
    if rules == [] then []
    else
      var n := |rules| - 1;
      GroupOf(rules[..n], conds[..n], g) + (if rules[n].groupIndex == g then [conds[n]] else [])
  }

  /** The dictionary's keys, in the order in which they were first used. */
  function FirstUses(rules: seq<Rule>): (keys: seq<int>)
    ensures forall g :: g in keys <==> g in Indices(rules)
  {
    if rules == [] then []
    else
      var n := |rules| - 1;
      var keys := FirstUses(rules[..n]);
      assert rules == rules[..n] + [rules[n]];
      assert Indices(rules) == Indices(rules[..n]) + {rules[n].groupIndex};
      if rules[n].groupIndex in keys then keys else keys + [rules[n].groupIndex]
  }

  function UpTo(): (int, int) -> bool {
    (a, b) => a <= b
  }

  function SortedKeys(keys: seq<int>): (r: seq<int>)
    ensures forall g :: g in r <==> g in keys
    ensures IsSorted(UpTo(), r)
  {
    var r := Sort(UpTo(), keys);
    assert IsSorted(UpTo(), r) by { SortSorts(UpTo(), keys); }
    SameElements(r, keys);
    r
  }

  function GroupConditions(rules: seq<Rule>, conds: seq<Cond>, keys: seq<int>): seq<Cond>
    requires |rules| == |conds|
  {
    seq(|keys|, i requires 0 <= i < |keys| => And(GroupOf(rules, conds, keys[i])))
  }

  function Combine(matchType: MatchType, groups: seq<Cond>): Cond {
    if |groups| == 1 then groups[0]
    else if matchType == MatchAny then Or(groups)
    else And(groups)
  }

  function Compile(ctx: Context, matchType: MatchType, rules: seq<Rule>): Result<Option<Cond>, Error> {
    if rules == [] then Ok(None)
    else match CompileEach(ctx, rules)
      case Err(e) => Err(e)
      case Ok(conds) => Ok(Some(Combine(matchType, GroupConditions(rules, conds, SortedKeys(FirstUses(rules))))))
  }

  lemma {:induction false} FirstFailure(ctx: Context, rules: seq<Rule>, k: nat)
    requires k <= |rules| && CompileEach(ctx, rules[..k]).Err?
    ensures CompileEach(ctx, rules) == CompileEach(ctx, rules[..k])
    decreases |rules|
  {
    if k == |rules| {
      assert rules[..k] == rules;
    } else {
      var n := |rules| - 1;
      assert rules[..n][..k] == rules[..k];
      FirstFailure(ctx, rules[..n], k);
    }
  }

  /** The dictionary holds, for each index in use, the conditions of its rules in order. */
  ghost predicate Collected(groups: map<int, seq<Cond>>, keys: seq<int>, rules: seq<Rule>, conds: seq<Cond>)
    requires |rules| == |conds|
  {
    && keys == FirstUses(rules)
    && (forall g :: g in groups <==> g in keys)
    && forall g :: g in groups ==> groups[g] == GroupOf(rules, conds, g)
  }

  lemma {:induction false} UnusedIndex(rules: seq<Rule>, conds: seq<Cond>, g: int)
    requires |rules| == |conds| && g !in FirstUses(rules)
    ensures GroupOf(rules, conds, g) == []
  {
    if rules != [] {
      var n := |rules| - 1;
      UnusedIndex(rules[..n], conds[..n], g);
    }
  }

  lemma CollectedMore(groups: map<int, seq<Cond>>, keys: seq<int>, rules: seq<Rule>, conds: seq<Cond>, rule: Rule,
                      c: Cond)
    requires |rules| == |conds| && Collected(groups, keys, rules, conds)
    ensures var g := rule.groupIndex;
            if g in groups then Collected(groups[g := groups[g] + [c]], keys, rules + [rule], conds + [c])
            else Collected(groups[g := [c]], keys + [g], rules + [rule], conds + [c])
  {
    var more, moreConds := rules + [rule], conds + [c];
    assert more[..|rules|] == rules && moreConds[..|rules|] == conds;
    if rule.groupIndex !in groups {
      UnusedIndex(rules, conds, rule.groupIndex);
    }
  }

  lemma CompileEachMore(ctx: Context, rules: seq<Rule>, rule: Rule)
    requires CompileEach(ctx, rules).Ok?
    ensures CompileEach(ctx, rules + [rule]) == match RuleCondition(ctx, rule)
      case Err(e) => Err(e)
      case Ok(c) => Ok(CompileEach(ctx, rules).value + [c])
  {
    assert (rules + [rule])[..|rules|] == rules;
  }

  /** One round of the first loop: `groups.setdefault(index, []).append(condition)`. */
  method Append(groups: map<int, seq<Cond>>, keys: seq<int>, g: int, c: Cond)
    returns (more: map<int, seq<Cond>>, moreKeys: seq<int>)
    ensures more == groups[g := (if g in groups then groups[g] else []) + [c]]
    ensures moreKeys == if g in groups then keys else keys + [g]
  {
    more, moreKeys := groups, keys;
    if g !in groups {
      more, moreKeys := more[g := []], keys + [g];
    }
    more := more[g := more[g] + [c]];
  }

  /** The first loop: conditions into the dictionary of groups. */
  method CollectGroups(ctx: Context, rules: seq<Rule>) returns (r: Result<(map<int, seq<Cond>>, seq<int>), Error>)
    ensures CompileEach(ctx, rules).Err? ==> r == Err(CompileEach(ctx, rules).error)
    ensures CompileEach(ctx, rules).Ok? ==>
            r.Ok? && Collected(r.value.0, r.value.1, rules, CompileEach(ctx, rules).value)
  {
    var groups: map<int, seq<Cond>>, keys: seq<int> := map[], [];
    ghost var conds: seq<Cond> := [];
    for i := 0 to |rules|
      invariant CompileEach(ctx, rules[..i]) == Ok(conds)
      invariant |conds| == i && Collected(groups, keys, rules[..i], conds)
    {
      var rule := rules[i];
      assert rules[..i + 1] == rules[..i] + [rule];
      CompileEachMore(ctx, rules[..i], rule);
      var condition := RuleCondition(ctx, rule);
      if condition.Err? {
        FirstFailure(ctx, rules, i + 1);
        return Err(condition.error);
      }
      CollectedMore(groups, keys, rules[..i], conds, rule, condition.value);
      assert [] + [condition.value] == [condition.value];
      groups, keys := Append(groups, keys, rule.groupIndex, condition.value);
      conds := conds + [condition.value];
    }
    assert rules[..|rules|] == rules;
    return Ok((groups, keys));
  }

  lemma GroupConditionsMore(rules: seq<Rule>, conds: seq<Cond>, keys: seq<int>, i: nat)
    requires |rules| == |conds| && i < |keys|
    ensures GroupConditions(rules, conds, keys[..i + 1]) ==
            GroupConditions(rules, conds, keys[..i]) + [And(GroupOf(rules, conds, keys[i]))]
  {}

  method CompileRules(ctx: Context, matchType: MatchType, rules: seq<Rule>) returns (r: Result<Option<Cond>, Error>)
    ensures r == Compile(ctx, matchType, rules)
  {
    if rules == [] {
      return Ok(None);
    }
    var collected := CollectGroups(ctx, rules);
    if collected.Err? {
      return Err(collected.error);
    }
    var (groups, used) := collected.value;
    ghost var conds := CompileEach(ctx, rules).value;
    var keys := SortedKeys(used);
    var groupConditions: seq<Cond> := [];
    for i := 0 to |keys|
      invariant groupConditions == GroupConditions(rules, conds, keys[..i])
    {
      assert keys[i] in keys && keys[i] in used;
      GroupConditionsMore(rules, conds, keys, i);
      groupConditions := groupConditions + [And(groups[keys[i]])];
    }
    assert keys[..|keys|] == keys;
    if |groupConditions| == 1 {
      return Ok(Some(groupConditions[0]));
    }
    return Ok(Some(if matchType == MatchAny then Or(groupConditions) else And(groupConditions)));
  }

  // ----- What the combined condition says -----

  /** Groups of rule truths: all of some group, or all of every group. */
  ghost predicate Grouped(matchType: MatchType, rules: seq<Rule>, truth: Rule -> bool) {
    match matchType
    case MatchAny => exists g :: g in Indices(rules) && WholeGroup(rules, g, truth)
    case MatchAll => forall r :: r in rules ==> truth(r)
  }

  ghost predicate WholeGroup(rules: seq<Rule>, g: int, truth: Rule -> bool) {
    forall r :: r in rules && r.groupIndex == g ==> truth(r)
  }

  predicate HoldsAt(ctx: Context, rule: Rule, db: Database, row: Row) {
    RuleCondition(ctx, rule).Ok? && Holds(RuleCondition(ctx, rule).value, db, row)
  }

  function RuleHolds(ctx: Context, db: Database, row: Row): Rule -> bool {
    r => HoldsAt(ctx, r, db, row)
  }

  lemma {:induction false} CompiledEach(ctx: Context, rules: seq<Rule>)
    requires CompileEach(ctx, rules).Ok?
    ensures forall i :: 0 <= i < |rules| ==> RuleCondition(ctx, rules[i]) == Ok(CompileEach(ctx, rules).value[i])
  {
    if rules != [] {
      CompiledEach(ctx, rules[..|rules| - 1]);
    }
  }

  lemma {:induction false} GroupHolds(rules: seq<Rule>, conds: seq<Cond>, g: int, db: Database, row: Row)
    requires |rules| == |conds|
    ensures AllHold(GroupOf(rules, conds, g), db, row) <==>
            forall i :: 0 <= i < |rules| && rules[i].groupIndex == g ==> Holds(conds[i], db, row)
  {
    if rules != [] {
      var n := |rules| - 1;
      GroupHolds(rules[..n], conds[..n], g, db, row);
      var init := GroupOf(rules[..n], conds[..n], g);
      assert forall c :: c in GroupOf(rules, conds, g) <==> c in init || (rules[n].groupIndex == g && c == conds[n]);
      assert AllHold(GroupOf(rules, conds, g), db, row) <==>
             AllHold(init, db, row) && (rules[n].groupIndex == g ==> Holds(conds[n], db, row));
      assert forall i :: 0 <= i < n ==> rules[..n][i] == rules[i] && conds[..n][i] == conds[i];
    }
  }

  lemma GroupConditionHolds(ctx: Context, rules: seq<Rule>, g: int, db: Database, row: Row)
    requires CompileEach(ctx, rules).Ok?
    ensures Holds(And(GroupOf(rules, CompileEach(ctx, rules).value, g)), db, row) <==>
            WholeGroup(rules, g, RuleHolds(ctx, db, row))
  {
    var conds, truth := CompileEach(ctx, rules).value, RuleHolds(ctx, db, row);
    CompiledEach(ctx, rules);
    AndHolds(GroupOf(rules, conds, g), db, row);
    GroupHolds(rules, conds, g, db, row);
    forall i | 0 <= i < |rules| ensures truth(rules[i]) <==> Holds(conds[i], db, row) {}
    if WholeGroup(rules, g, truth) {
      forall i | 0 <= i < |rules| && rules[i].groupIndex == g ensures Holds(conds[i], db, row) {
        assert rules[i] in rules;
      }
    }
  }

  /** The compiled condition is TRUE exactly when the groups of its rules' conditions say so. */
  lemma CompiledGroups(ctx: Context, matchType: MatchType, rules: seq<Rule>, db: Database, row: Row)
    requires Compile(ctx, matchType, rules).Ok? && rules != []
    ensures Compile(ctx, matchType, rules).value.Some?
    ensures Holds(Compile(ctx, matchType, rules).value.value, db, row) <==>
            Grouped(matchType, rules, RuleHolds(ctx, db, row))
  {
    var conds, keys := CompileEach(ctx, rules).value, SortedKeys(FirstUses(rules));
    var groups := GroupConditions(rules, conds, keys);
    var truth := RuleHolds(ctx, db, row);
    forall i | 0 <= i < |keys| ensures Holds(groups[i], db, row) <==> WholeGroup(rules, keys[i], truth) {
      GroupConditionHolds(ctx, rules, keys[i], db, row);
    }
    assert rules[0].groupIndex in Indices(rules);
    AndHolds(groups, db, row);
    OrHolds(groups, db, row);
    CombinedGroups(matchType, rules, keys, groups, truth, db, row);
  }

  lemma CombinedGroups(matchType: MatchType, rules: seq<Rule>, keys: seq<int>, groups: seq<Cond>,
                       truth: Rule -> bool, db: Database, row: Row)
    requires |keys| == |groups| > 0 && forall g :: g in keys <==> g in Indices(rules)
    requires forall i :: 0 <= i < |keys| ==> (Holds(groups[i], db, row) <==> WholeGroup(rules, keys[i], truth))
    ensures Holds(Combine(matchType, groups), db, row) <==> Grouped(matchType, rules, truth)
  {
    AndHolds(groups, db, row);
    OrHolds(groups, db, row);
    AllGroups(rules, keys, groups, truth, db, row);
    AnyGroup(rules, keys, groups, truth, db, row);
    if |groups| == 1 {
      assert groups[0] in groups && forall c :: c in groups ==> c == groups[0];
    }
  }

  lemma AnyGroup(rules: seq<Rule>, keys: seq<int>, groups: seq<Cond>, truth: Rule -> bool, db: Database, row: Row)
    requires |keys| == |groups| && forall g :: g in keys <==> g in Indices(rules)
    requires forall i :: 0 <= i < |keys| ==> (Holds(groups[i], db, row) <==> WholeGroup(rules, keys[i], truth))
    ensures (exists c :: c in groups && Holds(c, db, row)) <==>
            exists g :: g in Indices(rules) && WholeGroup(rules, g, truth)
  {
    if g :| g in Indices(rules) && WholeGroup(rules, g, truth) {
      var i :| 0 <= i < |keys| && keys[i] == g;
      assert groups[i] in groups;
    }
    if c :| c in groups && Holds(c, db, row) {
      var i :| 0 <= i < |groups| && groups[i] == c;
      assert keys[i] in keys;
    }
  }

  lemma AllGroups(rules: seq<Rule>, keys: seq<int>, groups: seq<Cond>, truth: Rule -> bool, db: Database, row: Row)
    requires |keys| == |groups| && forall g :: g in keys <==> g in Indices(rules)
    requires forall i :: 0 <= i < |keys| ==> (Holds(groups[i], db, row) <==> WholeGroup(rules, keys[i], truth))
    ensures AllHold(groups, db, row) <==> forall r :: r in rules ==> truth(r)
  {
    if AllHold(groups, db, row) {
      forall r | r in rules ensures truth(r) {
        assert r.groupIndex in Indices(rules);
        var i :| 0 <= i < |keys| && keys[i] == r.groupIndex;
        assert groups[i] in groups;
      }
    }
    if forall r :: r in rules ==> truth(r) {
      forall c | c in groups ensures Holds(c, db, row) {
        var i :| 0 <= i < |groups| && groups[i] == c;
      }
    }
  }

  // ----- Meaning is preserved -----

  /** What a segment says about a contact. */
  ghost predicate SegmentMatches(ctx: Context, matchType: MatchType, rules: seq<Rule>, db: Database, contact: Row)
    requires forall r :: r in rules ==> Accepted(ctx, r)
  {
    match matchType
    case MatchAny =>
      exists g :: g in Indices(rules) && forall r :: r in rules && r.groupIndex == g ==>
        RuleMatches(ctx, db, r, contact)
    case MatchAll => forall r :: r in rules ==> RuleMatches(ctx, db, r, contact)
  }

  /** Every rule is accepted, compiles, and selects as said. */
  ghost predicate Compilable(ctx: Context, rules: seq<Rule>, escapes: bool) {
    forall r :: r in rules ==> Accepted(ctx, r) && Compiles(ctx, r) && SelectsAsSaid(ctx, r, escapes)
  }

  lemma {:induction false} EachProgresses(ctx: Context, rules: seq<Rule>)
    requires forall r :: r in rules ==> Accepted(ctx, r)
    ensures CompileEach(ctx, rules).Ok? <==> forall r :: r in rules ==> Compiles(ctx, r)
  {
    if rules != [] {
      var init, last := rules[..|rules| - 1], rules[|rules| - 1];
      assert rules == init + [last];
      EachProgresses(ctx, init);
      RuleProgress(ctx, last);
    }
  }

  /** Progress: a list of accepted rules compiles exactly when each of its rules does. */
  lemma CompileProgress(ctx: Context, matchType: MatchType, rules: seq<Rule>)
    requires forall r :: r in rules ==> Accepted(ctx, r)
    ensures Compile(ctx, matchType, rules).Ok? <==> forall r :: r in rules ==> Compiles(ctx, r)
    ensures Compile(ctx, matchType, rules) == Ok(None) <==> rules == []
  {
    EachProgresses(ctx, rules);
  }

  /**
    Compilation preserves meaning: for every database, the compiled condition is TRUE of a
    contact under three-valued logic if and only if the contact matches the segment.
  */
  lemma CompilationPreservesMeaning(ctx: Context, matchType: MatchType, rules: seq<Rule>, db: Database, contact: Row)
    requires Constrained(db) && Cell(contact, Id) != VNull
    requires Compilable(ctx, rules, db.backslashEscapes) && rules != []
    ensures Compile(ctx, matchType, rules).Ok? && Compile(ctx, matchType, rules).value.Some?
    ensures Holds(Compile(ctx, matchType, rules).value.value, db, contact) <==>
            SegmentMatches(ctx, matchType, rules, db, contact)
  {
    CompileProgress(ctx, matchType, rules);
    CompiledGroups(ctx, matchType, rules, db, contact);
    var truth := RuleHolds(ctx, db, contact);
    forall r | r in rules ensures truth(r) <==> RuleMatches(ctx, db, r, contact) {
      RuleMeaning(ctx, r, db, contact);
    }
    if matchType == MatchAny {
      forall g
        ensures WholeGroup(rules, g, truth) <==>
                forall r :: r in rules && r.groupIndex == g ==> RuleMatches(ctx, db, r, contact)
      {}
    }
  }

  /** The compiled segment is TRUE of a stored contact exactly when the contact matches it. */
  ghost predicate SegmentMeans(ctx: Context, matchType: MatchType, rules: seq<Rule>, db: Database, contact: Row)
    requires forall r :: r in rules ==> Accepted(ctx, r)
  {
    var compiled := Compile(ctx, matchType, rules);
    && compiled.Ok? && compiled.value.Some?
    && (Holds(compiled.value.value, db, contact) <==> SegmentMatches(ctx, matchType, rules, db, contact))
  }

  lemma SingleRule(ctx: Context, rule: Rule, db: Database, contact: Row)
    requires Accepted(ctx, rule) && Compiles(ctx, rule) && SegmentMeans(ctx, MatchAll, [rule], db, contact)
    ensures Means(ctx, rule, db, contact)
  {
    RuleProgress(ctx, rule);
    CompiledGroups(ctx, MatchAll, [rule], db, contact);
    assert [rule][0] == rule;
    assert RuleHolds(ctx, db, contact)(rule) <==> Holds(RuleCondition(ctx, rule).value, db, contact);
  }

  /** Any segment made of these rules means what it says, in every database. */
  ghost predicate AllSegmentsMean(ctx: Context, rules: seq<Rule>, escapes: bool)
    requires forall r :: r in rules ==> Accepted(ctx, r)
  {
    forall matchType: MatchType, some: seq<Rule>, db: Database, contact: Row ::
      Stored(db, contact, escapes) && some != [] && (forall r :: r in some ==> r in rules) ==>
        SegmentMeans(ctx, matchType, some, db, contact)
  }

  /**
    Exactly the rules that select as said can be combined freely: every segment made of the given
    rules means what it says, in every database, if and only if each of the rules selects as said.
  */
  lemma SegmentMeaningExact(ctx: Context, rules: seq<Rule>, escapes: bool)
    requires forall r :: r in rules ==> Accepted(ctx, r) && Compiles(ctx, r)
    ensures (forall r :: r in rules ==> SelectsAsSaid(ctx, r, escapes)) <==> AllSegmentsMean(ctx, rules, escapes)
  {
    if forall r :: r in rules ==> SelectsAsSaid(ctx, r, escapes) {
      forall matchType: MatchType, some: seq<Rule>, db: Database, contact: Row |
        Stored(db, contact, escapes) && some != [] && (forall r :: r in some ==> r in rules)
        ensures SegmentMeans(ctx, matchType, some, db, contact)
      {
        CompilationPreservesMeaning(ctx, matchType, some, db, contact);
      }
    } else {
      var rule :| rule in rules && !SelectsAsSaid(ctx, rule, escapes);
      var db, contact := RuleMisfires(ctx, rule, escapes);
      assert Stored(db, contact, escapes) && !Means(ctx, rule, db, contact);
      if AllSegmentsMean(ctx, rules, escapes) {
        assert SegmentMeans(ctx, MatchAll, [rule], db, contact);
        SingleRule(ctx, rule, db, contact);
      }
    }
  }

  // ----- Complements -----

  /** The operators that come in pairs: each with the one that it negates. */
  predicate Opposite(a: Rule, b: Rule) {
    && b == a.(operator := b.operator, value := b.value)
    && match a.source
       case Attribute =>
         || (a.operator == OpNe && b.operator == OpEq && a.value == b.value)
         || (a.operator == OpNin && b.operator == OpIn && a.value == b.value)
         || (a.operator == OpExists && b.operator == OpExists && a.value != b.value)
       case Tag => a.operator == OpNin && b.operator == OpIn && a.value == b.value
       case _ => a.operator == OpExists && b.operator == OpExists && a.value != b.value
  }

  lemma OppositeAttributes(ctx: Context, spec: AttributeSpec, a: Rule, b: Rule, v: Value)
    requires a.source == Attribute && Opposite(a, b)
    requires ShapeAccepted(ctx.parsers, AsAttribute(spec), a.operator, a.value)
    requires ShapeAccepted(ctx.parsers, AsAttribute(spec), b.operator, b.value)
    ensures AttributeMatches(ctx, spec, a.operator, v, a.value) <==>
            !AttributeMatches(ctx, spec, b.operator, v, b.value)
  {}

  lemma OppositeMatches(ctx: Context, a: Rule, b: Rule, db: Database, contact: Row)
    requires Accepted(ctx, a) && Accepted(ctx, b) && Opposite(a, b)
    ensures RuleMatches(ctx, db, a, contact) <==> !RuleMatches(ctx, db, b, contact)
  {
    match a.source {
      case Attribute =>
        var spec := ctx.attributes[a.fieldKey];
        var v := ValueOf(db.attributeValues, Cell(contact, Id), spec.attributeId, ValueColumn(spec.dataType));
        AttributeRuleMatches(ctx, db, a, contact);
        AttributeRuleMatches(ctx, db, b, contact);
        OppositeAttributes(ctx, spec, a, b, v);
      case Tag =>
      case OtherSource(_) =>
      case _ =>
        ColumnRuleMatches(ctx, db, a, contact);
        ColumnRuleMatches(ctx, db, b, contact);
    }
  }

  /**
    Opposite rules split the contacts in two: none is in both segments and none, with or without a
    value, in neither.
  */
  lemma Complement(ctx: Context, a: Rule, b: Rule, db: Database, contact: Row)
    requires Constrained(db) && Cell(contact, Id) != VNull && Opposite(a, b)
    requires Compilable(ctx, [a], db.backslashEscapes) && Compilable(ctx, [b], db.backslashEscapes)
    ensures RuleCondition(ctx, a).Ok? && RuleCondition(ctx, b).Ok?
    ensures Holds(RuleCondition(ctx, a).value, db, contact) <==> !Holds(RuleCondition(ctx, b).value, db, contact)
  {
    assert a in [a] && b in [b];
    RuleMeaning(ctx, a, db, contact);
    RuleMeaning(ctx, b, db, contact);
    OppositeMatches(ctx, a, b, db, contact);
  }

  predicate ColumnPair(a: Rule, b: Rule) {
    && (a.source == Contact || a.source == Engagement) && b == a.(operator := b.operator)
    && ((a.operator == OpNe && b.operator == OpEq) || (a.operator == OpNin && b.operator == OpIn))
  }

  /** The two readings never meet, and leave out a missing value unless it is compared with null. */
  lemma PairMatches(ctx: Context, a: Rule, b: Rule, db: Database, contact: Row)
    requires ColumnPair(a, b) && Accepted(ctx, a) && Accepted(ctx, b) && (a.operator == OpNe ==> !a.value.JList?)
    ensures var column := ColumnFor(a.source, a.fieldKey).value.0;
            var inA, inB := RuleMatches(ctx, db, a, contact), RuleMatches(ctx, db, b, contact);
            && !(inA && inB)
            && (!inA && !inB <==> Cell(contact, column) == VNull && !a.value.JNull?)
  {
    var (column, t) := ColumnFor(a.source, a.fieldKey).value;
    ColumnRuleMatches(ctx, db, a, contact);
    ColumnRuleMatches(ctx, db, b, contact);
    if a.operator == OpNe {
      ReadDenoted(ctx.parsers, AsField(t), a.value);
    }
  }

  /** On a column the pair leaves out the contacts with no value, and only those, unless it compares with null. */
  lemma ColumnPairDropsNull(ctx: Context, a: Rule, b: Rule, db: Database, contact: Row)
    requires Constrained(db) && Cell(contact, Id) != VNull && ColumnPair(a, b)
    requires Compilable(ctx, [a], db.backslashEscapes) && Compilable(ctx, [b], db.backslashEscapes)
    ensures RuleCondition(ctx, a).Ok? && RuleCondition(ctx, b).Ok?
    ensures !(Holds(RuleCondition(ctx, a).value, db, contact) && Holds(RuleCondition(ctx, b).value, db, contact))
    ensures forall column, t :: FieldNamed(a.source, a.fieldKey, column, t) ==>
              (!Holds(RuleCondition(ctx, a).value, db, contact) && !Holds(RuleCondition(ctx, b).value, db, contact) <==>
               Cell(contact, column) == VNull && !a.value.JNull?)
  {
    assert a in [a] && b in [b];
    RuleMeaning(ctx, a, db, contact);
    RuleMeaning(ctx, b, db, contact);
    PairMatches(ctx, a, b, db, contact);
    FieldNamedExact(a.source, a.fieldKey);
  }

  // ----- Grouping laws -----

  /** The order of the rules, and repeating one, make no difference. */
  lemma PermutedRules(ctx: Context, matchType: MatchType, rules: seq<Rule>, others: seq<Rule>, db: Database, row: Row)
    requires rules != [] && others != [] && forall r :: r in rules <==> r in others
    requires Compile(ctx, matchType, rules).Ok? && Compile(ctx, matchType, others).Ok?
    ensures Compile(ctx, matchType, rules).value.Some? && Compile(ctx, matchType, others).value.Some?
    ensures Holds(Compile(ctx, matchType, rules).value.value, db, row) <==>
            Holds(Compile(ctx, matchType, others).value.value, db, row)
  {
    CompiledGroups(ctx, matchType, rules, db, row);
    CompiledGroups(ctx, matchType, others, db, row);
    assert Indices(rules) == Indices(others);
    var truth := RuleHolds(ctx, db, row);
    forall g ensures WholeGroup(rules, g, truth) <==> WholeGroup(others, g, truth) {}
  }

  lemma AllRulesHold(ctx: Context, rules: seq<Rule>, db: Database, row: Row)
    requires rules != [] && Compile(ctx, MatchAll, rules).Ok?
    ensures Compile(ctx, MatchAll, rules).value.Some?
    ensures Holds(Compile(ctx, MatchAll, rules).value.value, db, row) <==>
            forall i :: 0 <= i < |rules| ==> HoldsAt(ctx, rules[i], db, row)
  {
    var truth := RuleHolds(ctx, db, row);
    CompiledGroups(ctx, MatchAll, rules, db, row);
    assert forall i :: 0 <= i < |rules| ==> (truth(rules[i]) <==> HoldsAt(ctx, rules[i], db, row));
    assert (forall r :: r in rules ==> truth(r)) <==> forall i :: 0 <= i < |rules| ==> truth(rules[i]);
  }

  lemma IndexIrrelevant(ctx: Context, rule: Rule, g: int)
    ensures RuleCondition(ctx, rule.(groupIndex := g)) == RuleCondition(ctx, rule)
  {}

  /** Under `all`, the group indices make no difference. */
  lemma RegroupedRules(ctx: Context, rules: seq<Rule>, others: seq<Rule>, db: Database, row: Row)
    requires |rules| == |others| > 0
    requires forall i :: 0 <= i < |rules| ==> others[i] == rules[i].(groupIndex := others[i].groupIndex)
    requires Compile(ctx, MatchAll, rules).Ok? && Compile(ctx, MatchAll, others).Ok?
    ensures Compile(ctx, MatchAll, rules).value.Some? && Compile(ctx, MatchAll, others).value.Some?
    ensures Holds(Compile(ctx, MatchAll, rules).value.value, db, row) <==>
            Holds(Compile(ctx, MatchAll, others).value.value, db, row)
  {
    AllRulesHold(ctx, rules, db, row);
    AllRulesHold(ctx, others, db, row);
    forall i | 0 <= i < |rules|
      ensures HoldsAt(ctx, rules[i], db, row) <==> HoldsAt(ctx, others[i], db, row)
    {
      IndexIrrelevant(ctx, rules[i], others[i].groupIndex);
    }
  }

  /** Under `any`, a further group only adds contacts to a segment that has rules. */
  lemma AddedGroup(ctx: Context, rules: seq<Rule>, group: seq<Rule>, db: Database, row: Row)
    requires rules != [] && forall r :: r in group ==> r.groupIndex !in Indices(rules)
    requires Compile(ctx, MatchAny, rules).Ok? && Compile(ctx, MatchAny, rules + group).Ok?
    ensures Compile(ctx, MatchAny, rules).value.Some? && Compile(ctx, MatchAny, rules + group).value.Some?
    ensures Holds(Compile(ctx, MatchAny, rules).value.value, db, row) ==>
            Holds(Compile(ctx, MatchAny, rules + group).value.value, db, row)
  {
    var truth := RuleHolds(ctx, db, row);
    CompiledGroups(ctx, MatchAny, rules, db, row);
    CompiledGroups(ctx, MatchAny, rules + group, db, row);
    if Grouped(MatchAny, rules, truth) {
      var g :| g in Indices(rules) && WholeGroup(rules, g, truth);
      var r :| r in rules && r.groupIndex == g;
      assert r in rules + group;
      assert g in Indices(rules + group) && WholeGroup(rules + group, g, truth);
    }
  }

  /** Under `any`, a further rule in a group that is there only removes contacts. */
  lemma AddedRule(ctx: Context, rules: seq<Rule>, rule: Rule, db: Database, row: Row)
    requires rule.groupIndex in Indices(rules)
    requires Compile(ctx, MatchAny, rules).Ok? && Compile(ctx, MatchAny, rules + [rule]).Ok?
    ensures Compile(ctx, MatchAny, rules).value.Some? && Compile(ctx, MatchAny, rules + [rule]).value.Some?
    ensures Holds(Compile(ctx, MatchAny, rules + [rule]).value.value, db, row) ==>
            Holds(Compile(ctx, MatchAny, rules).value.value, db, row)
  {
    var truth := RuleHolds(ctx, db, row);
    CompiledGroups(ctx, MatchAny, rules, db, row);
    CompiledGroups(ctx, MatchAny, rules + [rule], db, row);
    assert Indices(rules + [rule]) == Indices(rules);
    if Grouped(MatchAny, rules + [rule], truth) {
      var g :| g in Indices(rules + [rule]) && WholeGroup(rules + [rule], g, truth);
      assert WholeGroup(rules, g, truth);
    }
  }
}
