/**
 * The validation script: the catalog of rule instances in the order the
 * script applies them, the loop that applies them and stops at the first
 * failing one, and what a passing run guarantees about the dataset.
 */
module Runner {
  import opened Tables
  import opened Checks

  /** The nine tables the loader always produces. */
  datatype TableName =
    | Trials | Conditions | Interventions | Arms | PrimaryOutcomes
    | SecondaryOutcomes | Locations | Sponsors | Collaborators

  /**
   * The loaded dataset: one table under each of the nine names, and the
   * arm-intervention bridge table, which may be absent. `parseDate` is the
   * date parser the temporal checks apply to text cells.
   */
  datatype Dataset = Dataset(
    tables: TableName -> Table,
    armInterventions: Option<Table>,
    parseDate: string -> Option<int>)

  function NameOf(n: TableName): string {
    match n
    case Trials => "trials"
    case Conditions => "conditions"
    case Interventions => "interventions"
    case Arms => "arms"
    case PrimaryOutcomes => "primary_outcomes"
    case SecondaryOutcomes => "secondary_outcomes"
    case Locations => "locations"
    case Sponsors => "sponsors"
    case Collaborators => "collaborators"
  }

  /** One assertion of the script, with its table, columns and threshold. */
  datatype Rule =
    | NonemptyRule(table: TableName)
    | BridgeNonemptyRule
    | RequiredRule(table: TableName, column: string)
    | UniqueRule(table: TableName, column: string)
    | KeyRule(table: TableName, keyColumns: seq<string>, maxNullRate: real)
    | ForeignKeyRule(table: TableName, column: string)
    | BridgeRule
    | NoComplexRule(table: TableName)
    | BridgeNoComplexRule
    | NullRateRule(table: TableName, column: string, maxRate: real)
    | CompletionOrderRule
    | PrimaryCompletionOrderRule

  /**
   * The key set `set(trials["nct_id"])`; the lookup raises when the column is
   * absent, and building the set raises on a nested id.
   */
  function TrialIds(ds: Dataset): set<Cell> {
    set i | 0 <= i < |ds.tables(Trials).rows| :: At(ds.tables(Trials), i, "nct_id")
  }

  /** A `KeyError` from a column lookup, as opposed to a failed assertion. */
  predicate RaisesKeyError(v: Verdict) {
    v.Fail? && v.failure.ColumnNotFound?
  }

  /** The rules whose check indexes a column without testing for it first. */
  predicate LooksUpColumns(r: Rule) {
    r.UniqueRule? || r.ForeignKeyRule? || r.BridgeRule?
  }

  /**
   * The verdict of one assertion of the script. Only the uniqueness, foreign
   * key and bridge checks index a column without testing for it first.
   */
  function Evaluate(ds: Dataset, r: Rule): (v: Verdict)
    ensures !LooksUpColumns(r) ==> !RaisesKeyError(v)
    ensures r.BridgeNoComplexRule? && ds.armInterventions.None? ==> v.Pass?
  {
    match r
    case NonemptyRule(n) => Nonempty(Some(ds.tables(n)), NameOf(n))
    case BridgeNonemptyRule => Nonempty(ds.armInterventions, "arm_interventions")
    case RequiredRule(n, c) => RequiredNonNull(ds.tables(n), c, NameOf(n))
    case UniqueRule(n, c) => IsUnique(ds.tables(n), c, NameOf(n))
    case KeyRule(n, cols, rate) => CompositeKeyMostlyPresent(ds.tables(n), cols, NameOf(n), rate)
    case ForeignKeyRule(n, c) =>
      if "nct_id" !in ds.tables(Trials).columns then Fail(ColumnNotFound("trials", "nct_id"))
      else if HasComplex(ds.tables(Trials), "nct_id") then Fail(Unhashable("trials"))
      else ForeignKey(ds.tables(n), c, TrialIds(ds), NameOf(n))
    case BridgeRule => BridgeReferences(ds.armInterventions, ds.tables(Arms))
    case NoComplexRule(n) => NoComplexTypes(ds.tables(n), NameOf(n))
    case BridgeNoComplexRule =>
      if ds.armInterventions.None? then Pass
      else NoComplexTypes(ds.armInterventions.value, "arm_interventions")
    case NullRateRule(n, c, rate) => NullRateBelow(ds.tables(n), c, rate, NameOf(n))
    case CompletionOrderRule => CompletionOrder(ds.tables(Trials), ds.parseDate)
    case PrimaryCompletionOrderRule => PrimaryCompletionOrder(ds.tables(Trials), ds.parseDate)
  }

  /** Non-emptiness of all ten tables, the bridge table last. */
  const NonemptyRules: seq<Rule> := [
    NonemptyRule(Trials), NonemptyRule(Conditions), NonemptyRule(Interventions),
    NonemptyRule(Arms), NonemptyRule(PrimaryOutcomes), NonemptyRule(SecondaryOutcomes),
    NonemptyRule(Locations), NonemptyRule(Sponsors), NonemptyRule(Collaborators),
    BridgeNonemptyRule]

  /** The composite key the script checks on each dependent table. */
  function CompositeKey(n: TableName): (cols: seq<string>)
    ensures |cols| >= 1 && cols[0] == "nct_id" && NoDuplicates(cols)
    ensures n != Trials ==> |cols| >= 2
  {
    match n
    case Trials => ["nct_id"]
    case Conditions => ["nct_id", "condition"]
    case Interventions => ["nct_id", "intervention_name", "intervention_type"]
    case Arms => ["nct_id", "arm_label"]
    case PrimaryOutcomes => ["nct_id", "outcome_measure", "time_frame"]
    case SecondaryOutcomes => ["nct_id", "outcome_measure", "time_frame"]
    case Locations => ["nct_id", "facility_name", "city", "country"]
    case Sponsors => ["nct_id", "lead_sponsor_name"]
    case Collaborators => ["nct_id", "collaborator_name"]
  }

  /** The largest null rate the script tolerates in each column of that key. */
  function KeyNullCeiling(n: TableName): (rate: real)
    ensures rate == 0.01 <==> n == Conditions || n == Arms
    ensures rate == 0.05 <==> n == Interventions || n == Sponsors
    ensures rate == 0.10 <==> !(n in {Conditions, Arms, Interventions, Sponsors})
  {
    match n
    case Conditions => 0.01
    case Arms => 0.01
    case Interventions => 0.05
    case Sponsors => 0.05
    case _ => 0.10
  }

  function KeyRuleOf(n: TableName): Rule {
    KeyRule(n, CompositeKey(n), KeyNullCeiling(n))
  }

  /** Required `nct_id`, the trials primary key, and the per-table composite keys. */
  const KeyRules: seq<Rule> := [
    RequiredRule(Trials, "nct_id"), UniqueRule(Trials, "nct_id"),
    RequiredRule(Conditions, "nct_id"), KeyRuleOf(Conditions),
    RequiredRule(Interventions, "nct_id"), KeyRuleOf(Interventions),
    RequiredRule(Arms, "nct_id"), KeyRuleOf(Arms),
    RequiredRule(PrimaryOutcomes, "nct_id"), KeyRuleOf(PrimaryOutcomes),
    RequiredRule(SecondaryOutcomes, "nct_id"), KeyRuleOf(SecondaryOutcomes),
    RequiredRule(Locations, "nct_id"), KeyRuleOf(Locations),
    RequiredRule(Sponsors, "nct_id"), KeyRuleOf(Sponsors),
    RequiredRule(Collaborators, "nct_id"), KeyRuleOf(Collaborators)]

  /** Every dependent table's `nct_id` against the trial ids. */
  const ForeignKeyRules: seq<Rule> := [
    ForeignKeyRule(Conditions, "nct_id"), ForeignKeyRule(Interventions, "nct_id"),
    ForeignKeyRule(Arms, "nct_id"), ForeignKeyRule(PrimaryOutcomes, "nct_id"),
    ForeignKeyRule(SecondaryOutcomes, "nct_id"), ForeignKeyRule(Locations, "nct_id"),
    ForeignKeyRule(Sponsors, "nct_id"), ForeignKeyRule(Collaborators, "nct_id")]

  /** No nested values in any table, the bridge table when present. */
  const NoComplexRules: seq<Rule> := [
    NoComplexRule(Trials), NoComplexRule(Conditions), NoComplexRule(Interventions),
    NoComplexRule(Arms), NoComplexRule(PrimaryOutcomes), NoComplexRule(SecondaryOutcomes),
    NoComplexRule(Locations), NoComplexRule(Sponsors), NoComplexRule(Collaborators),
    BridgeNoComplexRule]

  /** Null-rate ceilings on trials columns, then the date ordering on trials. */
  const TrialsRules: seq<Rule> := [
    NullRateRule(Trials, "overall_status", 0.05),
    NullRateRule(Trials, "study_type", 0.05),
    NullRateRule(Trials, "brief_title", 0.10),
    CompletionOrderRule,
    PrimaryCompletionOrderRule]

  /** The whole script, in order. */
  const Catalog: seq<Rule> :=
    NonemptyRules + KeyRules + ForeignKeyRules + [BridgeRule] + NoComplexRules + TrialsRules

  /** `f` applied to each element of `s`, in order. */
  function MapSeq<A, B>(f: A -> B, s: seq<A>): (r: seq<B>)
    ensures |r| == |s|
    ensures forall i :: 0 <= i < |s| ==> r[i] == f(s[i])
  {
    seq(|s|, i requires 0 <= i < |s| => f(s[i]))
  }

  lemma MapSeqAppend<A, B>(f: A -> B, a: seq<A>, b: seq<A>)
    ensures MapSeq(f, a + b) == MapSeq(f, a) + MapSeq(f, b)
  {
    var m, ma, mb := MapSeq(f, a + b), MapSeq(f, a), MapSeq(f, b);
    forall i | 0 <= i < |m| ensures m[i] == (ma + mb)[i] {
      if i < |a| {
        assert (a + b)[i] == a[i];
      } else {
        assert (a + b)[i] == b[i - |a|];
      }
    }
  }

  function EvaluateOn(ds: Dataset): Rule -> Verdict {
    r => Evaluate(ds, r)
  }

  /** The verdict of each rule of `rules` on `ds`, in order. */
  function Verdicts(ds: Dataset, rules: seq<Rule>): (vs: seq<Verdict>)
    ensures |vs| == |rules|
    ensures forall i :: 0 <= i < |rules| ==> vs[i] == Evaluate(ds, rules[i])
  {
    MapSeq(EvaluateOn(ds), rules)
  }

  /** The first failing verdict of `vs`, or pass when there is none. */
  function FirstFail(vs: seq<Verdict>): (v: Verdict)
    ensures v.Pass? <==> forall i :: 0 <= i < |vs| ==> vs[i].Pass?
    ensures v.Fail? ==>
      exists i :: 0 <= i < |vs| && vs[i] == v && forall j :: 0 <= j < i ==> vs[j].Pass?
  {
    if vs == [] then Pass
    else if vs[0].Fail? then vs[0]
    else
      var v := FirstFail(vs[1..]);
      assert forall i :: 1 <= i < |vs| ==> vs[i] == vs[1..][i - 1];
      v
  }

  /** Checking `a` then `b` stops inside `a` when some verdict of `a` fails, and otherwise goes on to `b`. */
  lemma {:induction false} FirstFailAppend(a: seq<Verdict>, b: seq<Verdict>)
    ensures FirstFail(a + b) == if FirstFail(a).Fail? then FirstFail(a) else FirstFail(b)
  {
    if a != [] {
      assert (a + b)[0] == a[0];
      assert (a + b)[1..] == a[1..] + b;
      FirstFailAppend(a[1..], b);
    } else {
      assert a + b == b;
    }
  }

  /** Every rule of `rules` passes on `ds`. */
  ghost predicate AllPass(ds: Dataset, rules: seq<Rule>) {
    forall i :: 0 <= i < |rules| ==> Evaluate(ds, rules[i]).Pass?
  }

  /**
   * The verdict of applying `rules` in order and stopping at the first
   * failure: the first failing rule's verdict, or pass when none fails.
   */
  function FirstFailure(ds: Dataset, rules: seq<Rule>): (v: Verdict)
    ensures v.Pass? <==> AllPass(ds, rules)
    ensures v.Fail? ==>
      exists i :: 0 <= i < |rules| && Evaluate(ds, rules[i]) == v
        && forall j :: 0 <= j < i ==> Evaluate(ds, rules[j]).Pass?
  {
    FirstFail(Verdicts(ds, rules))
  }

  /** Running `a` then `b` stops inside `a` when some rule of `a` fails, and otherwise runs `b`. */
  lemma FirstFailureAppend(ds: Dataset, a: seq<Rule>, b: seq<Rule>)
    ensures FirstFailure(ds, a + b) ==
      if FirstFailure(ds, a).Fail? then FirstFailure(ds, a) else FirstFailure(ds, b)
  {
    MapSeqAppend(EvaluateOn(ds), a, b);
    FirstFailAppend(Verdicts(ds, a), Verdicts(ds, b));
  }

  /** Where each group of assertions sits in the script. */
  lemma CatalogLayout()
    ensures |Catalog| == 52
    ensures Catalog[..10] == NonemptyRules && Catalog[10..28] == KeyRules
    ensures Catalog[28..36] == ForeignKeyRules && Catalog[36] == BridgeRule
    ensures Catalog[37..47] == NoComplexRules && Catalog[47..] == TrialsRules
  {
    var a := NonemptyRules + KeyRules + ForeignKeyRules;
    assert Catalog == a + [BridgeRule] + NoComplexRules + TrialsRules;
  }

  /** Runs the script over `ds`: the first failing assertion, or pass. */
  method Validate(ds: Dataset) returns (v: Verdict)
    ensures v == FirstFailure(ds, Catalog)
  {
    var rules := Catalog;
    ghost var vs := Verdicts(ds, rules);
    var i := 0;
    while i < |rules|
      invariant 0 <= i <= |rules|
      invariant FirstFail(vs[i..]) == FirstFail(vs)
    {
      var verdict := Evaluate(ds, rules[i]);
      if verdict.Fail? {
        assert vs[i..][0] == verdict;
        return verdict;
      }
      assert vs[i..][1..] == vs[i + 1..];
      i := i + 1;
    }
    return Pass;
  }

  /** A run whose rules include a failing part fails. */
  lemma FailingPartFailsRun(ds: Dataset, before: seq<Rule>, part: seq<Rule>, after: seq<Rule>)
    requires !AllPass(ds, part)
    ensures FirstFailure(ds, before + part + after).Fail?
  {
    FirstFailureAppend(ds, before + part, after);
    FirstFailureAppend(ds, before, part);
  }

  /** A passing run passes every group of rules of the script. */
  lemma PassedRunPassesEachGroup(ds: Dataset)
    requires FirstFailure(ds, Catalog).Pass?
    ensures AllPass(ds, NonemptyRules) && AllPass(ds, KeyRules) && AllPass(ds, ForeignKeyRules)
    ensures AllPass(ds, [BridgeRule]) && AllPass(ds, NoComplexRules) && AllPass(ds, TrialsRules)
  {
    var g1 := NonemptyRules + KeyRules;
    var g2 := g1 + ForeignKeyRules;
    var g3 := g2 + [BridgeRule];
    var g4 := g3 + NoComplexRules;
    assert Catalog == g4 + TrialsRules;
    FirstFailureAppend(ds, g4, TrialsRules);
    FirstFailureAppend(ds, g3, NoComplexRules);
    FirstFailureAppend(ds, g2, [BridgeRule]);
    FirstFailureAppend(ds, g1, ForeignKeyRules);
    FirstFailureAppend(ds, NonemptyRules, KeyRules);
  }

  lemma PassedRunPassesKeyRules(ds: Dataset)
    requires FirstFailure(ds, Catalog).Pass?
    ensures AllPass(ds, KeyRules)
  {
    PassedRunPassesEachGroup(ds);
  }

  /** Where the rules about table `n` sit in the groups of the catalog. */
  function Position(n: TableName): (k: nat)
    ensures k < 9
    ensures NonemptyRules[k] == NonemptyRule(n) && NoComplexRules[k] == NoComplexRule(n)
    ensures KeyRules[2 * k] == RequiredRule(n, "nct_id")
    ensures n != Trials ==>
      1 <= k && KeyRules[2 * k + 1] == KeyRuleOf(n) && ForeignKeyRules[k - 1] == ForeignKeyRule(n, "nct_id")
  {
    match n
    case Trials => 0
    case Conditions => 1
    case Interventions => 2
    case Arms => 3
    case PrimaryOutcomes => 4
    case SecondaryOutcomes => 5
    case Locations => 6
    case Sponsors => 7
    case Collaborators => 8
  }

  // ---------------------------------------------------------------------
  // What the order of the script implies

  /**
   * A bridge table that is absent or has no rows fails the run; when the
   * nine loaded tables have rows, the run stops at exactly that check.
   */
  lemma MissingBridgeFailsRun(ds: Dataset)
    requires ds.armInterventions.None? || |ds.armInterventions.value.rows| == 0
    ensures FirstFailure(ds, Catalog).Fail?
    ensures (forall n :: |ds.tables(n).rows| > 0) ==>
      FirstFailure(ds, Catalog) == Fail(
        if ds.armInterventions.None? then TableIsNone("arm_interventions")
        else TableIsEmpty("arm_interventions"))
  {
    var rest := KeyRules + ForeignKeyRules + [BridgeRule] + NoComplexRules + TrialsRules;
    assert Catalog == NonemptyRules + rest;
    FirstFailureAppend(ds, NonemptyRules, rest);
    assert !Evaluate(ds, NonemptyRules[9]).Pass?;
    if forall n :: |ds.tables(n).rows| > 0 {
      LoadedTablesPassNonempty(ds);
    }
  }

  lemma LoadedTablesPassNonempty(ds: Dataset)
    requires forall n :: |ds.tables(n).rows| > 0
    ensures forall j :: 0 <= j < 9 ==> Evaluate(ds, NonemptyRules[j]).Pass?
  {
    forall j | 0 <= j < 9 ensures Evaluate(ds, NonemptyRules[j]).Pass? {
      assert NonemptyRules[j].NonemptyRule?;
    }
  }

  /**
   * The bridge check comes after the bridge table's non-emptiness check, so
   * when it is reached the bridge table exists and has rows: its absent and
   * zero-row branches never decide a run.
   */
  lemma BridgeCheckSeesPopulatedTable(ds: Dataset)
    requires AllPass(ds, Catalog[..36])
    ensures Catalog[36] == BridgeRule && Catalog[46] == BridgeNoComplexRule
    ensures ds.armInterventions.Some? && |ds.armInterventions.value.rows| > 0
  {
    CatalogLayout();
    assert Catalog[..36][9] == BridgeNonemptyRule;
    assert NoComplexRules[9] == BridgeNoComplexRule;
  }

  /** Two trials with the same `nct_id` fail the run. */
  lemma DuplicateTrialIdFailsRun(ds: Dataset, i: int, j: int)
    requires 0 <= i < j < |ds.tables(Trials).rows|
    requires At(ds.tables(Trials), i, "nct_id") == At(ds.tables(Trials), j, "nct_id")
    ensures FirstFailure(ds, Catalog).Fail?
  {
    var rest := ForeignKeyRules + [BridgeRule] + NoComplexRules + TrialsRules;
    assert Catalog == NonemptyRules + KeyRules + rest;
    DuplicateTrialIdFailsKeyRules(ds, i, j);
    FailingPartFailsRun(ds, NonemptyRules, KeyRules, rest);
  }

  lemma DuplicateTrialIdFailsKeyRules(ds: Dataset, i: int, j: int)
    requires 0 <= i < j < |ds.tables(Trials).rows|
    requires At(ds.tables(Trials), i, "nct_id") == At(ds.tables(Trials), j, "nct_id")
    ensures !AllPass(ds, KeyRules)
  {
    assert KeyRules[1] == UniqueRule(Trials, "nct_id");
    assert !IsUnique(ds.tables(Trials), "nct_id", "trials").Pass?;
  }

  /**
   * A run never raises when every rule that is reached (every earlier rule
   * passed) does not raise.
   */
  lemma NoKeyErrorWhenGuarded(ds: Dataset, rules: seq<Rule>)
    requires forall i :: 0 <= i < |rules| && AllPass(ds, rules[..i]) ==> !RaisesKeyError(Evaluate(ds, rules[i]))
    ensures !RaisesKeyError(FirstFailure(ds, rules))
  {
    var v := FirstFailure(ds, rules);
    if v.Fail? {
      var i :| 0 <= i < |rules| && Evaluate(ds, rules[i]) == v
        && forall j :: 0 <= j < i ==> Evaluate(ds, rules[j]).Pass?;
      assert AllPass(ds, rules[..i]);
    }
  }

  lemma NonemptyRulesNeverRaise(ds: Dataset)
    ensures !RaisesKeyError(FirstFailure(ds, NonemptyRules))
  {
    NoKeyErrorWhenGuarded(ds, NonemptyRules);
  }

  /** The uniqueness test on the trial id runs only after the required-column test found it. */
  lemma KeyRulesNeverRaise(ds: Dataset)
    ensures !RaisesKeyError(FirstFailure(ds, KeyRules))
  {
    forall i | 0 <= i < |KeyRules| && AllPass(ds, KeyRules[..i])
      ensures !RaisesKeyError(Evaluate(ds, KeyRules[i]))
    {
      if i == 1 {
        assert Evaluate(ds, KeyRules[..i][0]).Pass?;
        assert KeyRules[0] == RequiredRule(Trials, "nct_id");
        TrialIdLookupAfterRequired(ds);
      } else {
        assert !LooksUpColumns(KeyRules[i]);
      }
    }
    NoKeyErrorWhenGuarded(ds, KeyRules);
  }

  lemma TrialIdLookupAfterRequired(ds: Dataset)
    requires "nct_id" in ds.tables(Trials).columns
    ensures !RaisesKeyError(Evaluate(ds, KeyRules[1]))
  {
    assert KeyRules[1] == UniqueRule(Trials, "nct_id");
  }

  /**
   * The foreign-key tests run only after every table's `nct_id`, the trials
   * one included, passed the required-column test.
   */
  lemma ForeignKeyRulesNeverRaise(ds: Dataset)
    requires AllPass(ds, KeyRules)
    ensures !RaisesKeyError(FirstFailure(ds, ForeignKeyRules))
  {
    forall i | 0 <= i < |ForeignKeyRules| ensures !RaisesKeyError(Evaluate(ds, ForeignKeyRules[i])) {
      var r := ForeignKeyRules[i];
      assert r.ForeignKeyRule? && r.table != Trials && r.column == "nct_id";
      ForeignKeyLookupAfterRequired(ds, r.table);
    }
    NoKeyErrorWhenGuarded(ds, ForeignKeyRules);
  }

  lemma ForeignKeyLookupAfterRequired(ds: Dataset, n: TableName)
    requires AllPass(ds, KeyRules) && n != Trials
    ensures !RaisesKeyError(Evaluate(ds, ForeignKeyRule(n, "nct_id")))
  {
    TrialIdRequiredPasses(ds);
    RequiredIdPasses(ds, n);
    ForeignKeyLookupGuarded(ds, n);
  }

  lemma ForeignKeyLookupGuarded(ds: Dataset, n: TableName)
    requires "nct_id" in ds.tables(Trials).columns && "nct_id" in ds.tables(n).columns
    ensures !RaisesKeyError(Evaluate(ds, ForeignKeyRule(n, "nct_id")))
  {
  }

  /** The bridge test reads the arms table's key columns only after the arms key test found them. */
  lemma BridgeRuleNeverRaises(ds: Dataset)
    requires AllPass(ds, KeyRules)
    ensures !RaisesKeyError(FirstFailure(ds, [BridgeRule]))
  {
    ArmsKeyColumnsPresent(ds);
    ArmsLookupAfterKeyCheck(ds.armInterventions, ds.tables(Arms));
    assert Evaluate(ds, [BridgeRule][0]) == BridgeReferences(ds.armInterventions, ds.tables(Arms));
    NoKeyErrorWhenGuarded(ds, [BridgeRule]);
  }

  lemma ArmsKeyColumnsPresent(ds: Dataset)
    requires AllPass(ds, KeyRules)
    ensures "nct_id" in ds.tables(Arms).columns && "arm_label" in ds.tables(Arms).columns
  {
    CompositeKeyPasses(ds, Arms);
    assert CompositeKey(Arms)[0] == "nct_id" && CompositeKey(Arms)[1] == "arm_label";
  }

  lemma ArmsLookupAfterKeyCheck(bridge: Option<Table>, arms: Table)
    requires "nct_id" in arms.columns && "arm_label" in arms.columns
    ensures !RaisesKeyError(BridgeReferences(bridge, arms))
  {
  }

  lemma LaterRulesNeverRaise(ds: Dataset)
    ensures !RaisesKeyError(FirstFailure(ds, NoComplexRules))
    ensures !RaisesKeyError(FirstFailure(ds, TrialsRules))
  {
    NoKeyErrorWhenGuarded(ds, NoComplexRules);
    NoKeyErrorWhenGuarded(ds, TrialsRules);
  }

  /**
   * The script never stops on a `KeyError`: every lookup of a column it does
   * not test for comes after an assertion that the column exists. A nested
   * value in a hashed column can still stop it with a `TypeError`
   * (`NestedTrialIdCrashesRun`).
   */
  lemma RunNeverRaisesKeyError(ds: Dataset)
    ensures !RaisesKeyError(FirstFailure(ds, Catalog))
  {
    var g2 := NonemptyRules + KeyRules;
    var g3 := g2 + ForeignKeyRules;
    var g4 := g3 + [BridgeRule];
    var g5 := g4 + NoComplexRules;
    assert Catalog == g5 + TrialsRules;
    FirstFailureAppend(ds, g5, TrialsRules);
    FirstFailureAppend(ds, g4, NoComplexRules);
    FirstFailureAppend(ds, g3, [BridgeRule]);
    FirstFailureAppend(ds, g2, ForeignKeyRules);
    FirstFailureAppend(ds, NonemptyRules, KeyRules);
    NonemptyRulesNeverRaise(ds);
    KeyRulesNeverRaise(ds);
    LaterRulesNeverRaise(ds);
    if FirstFailure(ds, g2).Pass? {
      ForeignKeyRulesNeverRaise(ds);
      BridgeRuleNeverRaises(ds);
    }
  }

  // ---------------------------------------------------------------------
  // Nested values in hashed columns

  /** A `TypeError` from hashing a dict or list cell, as opposed to a failed assertion. */
  predicate RaisesTypeError(v: Verdict) {
    v.Fail? && v.failure.Unhashable?
  }

  /** No table of the dataset, the bridge table included, holds a nested value. */
  ghost predicate FlatDataset(ds: Dataset) {
    && (forall n :: NoNestedValues(ds.tables(n)))
    && (ds.armInterventions.Some? ==> NoNestedValues(ds.armInterventions.value))
  }

  /** A table without nested values hashes in every check that hashes it. */
  lemma FlatTableHashes(t: Table, cols: seq<string>)
    requires NoNestedValues(t)
    ensures forall c :: !HasComplex(t, c)
    ensures (forall k :: 0 <= k < |cols| ==> cols[k] in t.columns) ==> !NestedKeyPart(t.rows, cols)
    ensures !NestedArmRef(t)
  {
    if forall k :: 0 <= k < |cols| ==> cols[k] in t.columns {
      forall i, k | 0 <= i < |t.rows| && 0 <= k < |cols| ensures !Get(t.rows[i], cols[k]).Complex? {
        assert Get(t.rows[i], cols[k]) == At(t, i, cols[k]);
      }
    }
  }

  /** On a dataset without nested values no check raises a `TypeError`. */
  lemma FlatRuleNeverCrashes(ds: Dataset, r: Rule)
    requires FlatDataset(ds)
    ensures !RaisesTypeError(Evaluate(ds, r))
  {
    match r
    case UniqueRule(n, c) => FlatTableHashes(ds.tables(n), []);
    case KeyRule(n, cols, rate) => FlatTableHashes(ds.tables(n), cols);
    case ForeignKeyRule(n, c) =>
      FlatTableHashes(ds.tables(n), []);
      FlatTableHashes(ds.tables(Trials), []);
    case BridgeRule =>
      FlatTableHashes(ds.tables(Arms), []);
      if ds.armInterventions.Some? { FlatTableHashes(ds.armInterventions.value, []); }
    case _ =>
  }

  /**
   * A run over a dataset without nested values ends with a pass or with one
   * of the script's own assertion failures: neither a `TypeError` nor a
   * `KeyError` stops it.
   */
  lemma FlatRunEndsInAssertion(ds: Dataset)
    requires FlatDataset(ds)
    ensures !RaisesTypeError(FirstFailure(ds, Catalog)) && !RaisesKeyError(FirstFailure(ds, Catalog))
  {
    RunNeverRaisesKeyError(ds);
    var v := FirstFailure(ds, Catalog);
    if v.Fail? {
      var i :| 0 <= i < |Catalog| && Evaluate(ds, Catalog[i]) == v;
      FlatRuleNeverCrashes(ds, Catalog[i]);
    }
  }

  /** The run stops at rule `k` when every earlier rule passes and rule `k` fails. */
  lemma FirstFailureAt(ds: Dataset, rules: seq<Rule>, k: nat)
    requires k < |rules| && AllPass(ds, rules[..k]) && Evaluate(ds, rules[k]).Fail?
    ensures FirstFailure(ds, rules) == Evaluate(ds, rules[k])
  {
    forall j | 0 <= j < k ensures Evaluate(ds, rules[j]).Pass? {
      assert rules[..k][j] == rules[j];
    }
  }

  /**
   * A nested value as a trial id stops the run with a `TypeError` at the
   * trials uniqueness test, before the check for nested values is reached:
   * the required-column test accepts it, and hashing it fails.
   */
  lemma NestedTrialIdCrashesRun(ds: Dataset, i: int)
    requires forall n :: |ds.tables(n).rows| > 0
    requires ds.armInterventions.Some? && |ds.armInterventions.value.rows| > 0
    requires "nct_id" in ds.tables(Trials).columns
    requires forall j :: 0 <= j < |ds.tables(Trials).rows| ==>
      !At(ds.tables(Trials), j, "nct_id").Null? && !IsWhitespaceText(At(ds.tables(Trials), j, "nct_id"))
    requires 0 <= i < |ds.tables(Trials).rows| && At(ds.tables(Trials), i, "nct_id").Complex?
    ensures FirstFailure(ds, Catalog) == Fail(Unhashable("trials"))
  {
    var rest := KeyRules + (ForeignKeyRules + [BridgeRule] + NoComplexRules + TrialsRules);
    assert Catalog == NonemptyRules + rest;
    LoadedDatasetPassesNonempty(ds);
    FirstFailureAppend(ds, NonemptyRules, rest);
    TrialIdRequiredReached(ds);
    TrialIdUniqueCrashes(ds, i);
    StopsAtSecondRule(ds, rest);
  }

  lemma LoadedDatasetPassesNonempty(ds: Dataset)
    requires forall n :: |ds.tables(n).rows| > 0
    requires ds.armInterventions.Some? && |ds.armInterventions.value.rows| > 0
    ensures FirstFailure(ds, NonemptyRules).Pass?
  {
    LoadedTablesPassNonempty(ds);
    assert Evaluate(ds, NonemptyRules[9]).Pass?;
  }

  lemma StopsAtSecondRule(ds: Dataset, rules: seq<Rule>)
    requires |rules| >= 2 && Evaluate(ds, rules[0]).Pass? && Evaluate(ds, rules[1]).Fail?
    ensures FirstFailure(ds, rules) == Evaluate(ds, rules[1])
  {
    assert rules[..1] == [rules[0]];
    FirstFailureAt(ds, rules, 1);
  }

  lemma TrialIdRequiredReached(ds: Dataset)
    requires "nct_id" in ds.tables(Trials).columns
    requires forall j :: 0 <= j < |ds.tables(Trials).rows| ==>
      !At(ds.tables(Trials), j, "nct_id").Null? && !IsWhitespaceText(At(ds.tables(Trials), j, "nct_id"))
    ensures Evaluate(ds, KeyRules[0]).Pass?
  {
    assert KeyRules[0] == RequiredRule(Trials, "nct_id");
  }

  lemma TrialIdUniqueCrashes(ds: Dataset, i: int)
    requires "nct_id" in ds.tables(Trials).columns
    requires 0 <= i < |ds.tables(Trials).rows| && At(ds.tables(Trials), i, "nct_id").Complex?
    ensures Evaluate(ds, KeyRules[1]) == Fail(Unhashable("trials"))
  {
    assert KeyRules[1] == UniqueRule(Trials, "nct_id");
  }

  // ---------------------------------------------------------------------
  // What a passing run guarantees

  /** The trial id is present, non-blank and unique in every trial. */
  ghost predicate TrialIdIsPrimaryKey(trials: Table) {
    && "nct_id" in trials.columns
    && (forall i :: 0 <= i < |trials.rows| ==>
          !At(trials, i, "nct_id").Null? && !IsWhitespaceText(At(trials, i, "nct_id")))
    && (forall i, j :: 0 <= i < j < |trials.rows| ==> At(trials, i, "nct_id") != At(trials, j, "nct_id"))
  }

  /** Every row of `t` has a non-null `nct_id` naming a trial. */
  ghost predicate RefersToTrials(t: Table, trials: Table) {
    forall i :: 0 <= i < |t.rows| ==>
      !At(t, i, "nct_id").Null?
      && exists j :: 0 <= j < |trials.rows| && At(trials, j, "nct_id") == At(t, i, "nct_id")
  }

  /** The key columns exist, each is null at most at the given rate, and full keys are unique. */
  ghost predicate KeyMostlyPresent(t: Table, cols: seq<string>, maxNullRate: real) {
    && (forall k :: 0 <= k < |cols| ==>
          cols[k] in t.columns && NullRateWithin(t, cols[k], maxNullRate))
    && !KeysCollide(t.rows, cols)
  }

  ghost predicate NoNestedValues(t: Table) {
    forall c, i :: c in t.columns && 0 <= i < |t.rows| ==> !At(t, i, c).Complex?
  }

  ghost predicate DatesOrdered(trials: Table, parse: string -> Option<int>) {
    forall i :: 0 <= i < |trials.rows| ==>
      && !EndsBeforeStart(trials, i, "start_date", "completion_date", parse)
      && !EndsBeforeStart(trials, i, "start_date", "primary_completion_date", parse)
  }

  /** The bridge table exists, has its columns and rows, and every pair names an arm. */
  ghost predicate BridgeResolves(ds: Dataset) {
    && ds.armInterventions.Some?
    && |ds.armInterventions.value.rows| > 0
    && BridgeColumns <= ColumnSet(ds.armInterventions.value)
    && forall i :: 0 <= i < |ds.armInterventions.value.rows| ==>
         KnownArm(ds.tables(Arms), ArmRef(ds.armInterventions.value, i))
  }

  /** After a passing run every one of the ten tables exists and has rows. */
  lemma PassedRunNonempty(ds: Dataset)
    requires FirstFailure(ds, Catalog).Pass?
    ensures forall n :: |ds.tables(n).rows| > 0
    ensures ds.armInterventions.Some? && |ds.armInterventions.value.rows| > 0
  {
    PassedRunPassesEachGroup(ds);
    forall n ensures |ds.tables(n).rows| > 0 {
      assert Evaluate(ds, NonemptyRules[Position(n)]).Pass?;
    }
    assert Evaluate(ds, NonemptyRules[9]).Pass?;
  }

  /** After a passing run `nct_id` is a primary key of the trials table. */
  lemma PassedRunTrialKey(ds: Dataset)
    requires FirstFailure(ds, Catalog).Pass?
    ensures TrialIdIsPrimaryKey(ds.tables(Trials))
  {
    PassedRunPassesKeyRules(ds);
    TrialIdRequiredPasses(ds);
    TrialIdUniquePasses(ds);
  }

  lemma TrialIdRequiredPasses(ds: Dataset)
    requires AllPass(ds, KeyRules)
    ensures RequiredNonNull(ds.tables(Trials), "nct_id", "trials").Pass?
  {
    assert Evaluate(ds, KeyRules[0]).Pass?;
  }

  lemma TrialIdUniquePasses(ds: Dataset)
    requires AllPass(ds, KeyRules)
    ensures IsUnique(ds.tables(Trials), "nct_id", "trials").Pass?
  {
    assert Evaluate(ds, KeyRules[1]).Pass?;
  }

  /** After a passing run every dependent table's composite key is mostly present and unique. */
  lemma PassedRunCompositeKeys(ds: Dataset)
    requires FirstFailure(ds, Catalog).Pass?
    ensures forall n :: n != Trials ==> KeyMostlyPresent(ds.tables(n), CompositeKey(n), KeyNullCeiling(n))
  {
    PassedRunPassesKeyRules(ds);
    forall n | n != Trials
      ensures KeyMostlyPresent(ds.tables(n), CompositeKey(n), KeyNullCeiling(n))
    {
      CompositeKeyPasses(ds, n);
    }
  }

  lemma CompositeKeyPasses(ds: Dataset, n: TableName)
    requires AllPass(ds, KeyRules) && n != Trials
    ensures CompositeKeyMostlyPresent(ds.tables(n), CompositeKey(n), NameOf(n), KeyNullCeiling(n)).Pass?
  {
    var k := 2 * Position(n) + 1;
    assert KeyRules[k] == KeyRuleOf(n);
    assert Evaluate(ds, KeyRules[k]).Pass?;
    KeyRuleVerdict(ds, n);
  }

  lemma KeyRuleVerdict(ds: Dataset, n: TableName)
    requires Evaluate(ds, KeyRuleOf(n)).Pass?
    ensures CompositeKeyMostlyPresent(ds.tables(n), CompositeKey(n), NameOf(n), KeyNullCeiling(n)).Pass?
  {
  }

  /** After a passing run every dependent row names a trial that exists. */
  lemma PassedRunReferences(ds: Dataset)
    requires FirstFailure(ds, Catalog).Pass?
    ensures forall n :: n != Trials ==> RefersToTrials(ds.tables(n), ds.tables(Trials))
  {
    PassedRunPassesEachGroup(ds);
    forall n | n != Trials ensures RefersToTrials(ds.tables(n), ds.tables(Trials)) {
      RequiredIdPasses(ds, n);
      ForeignKeyPasses(ds, n);
      var t := ds.tables(n);
      forall i | 0 <= i < |t.rows|
        ensures exists j :: 0 <= j < |ds.tables(Trials).rows| && At(ds.tables(Trials), j, "nct_id") == At(t, i, "nct_id")
      {
        assert At(t, i, "nct_id") in TrialIds(ds);
      }
    }
  }

  lemma RequiredIdPasses(ds: Dataset, n: TableName)
    requires AllPass(ds, KeyRules)
    ensures RequiredNonNull(ds.tables(n), "nct_id", NameOf(n)).Pass?
  {
    var k := 2 * Position(n);
    assert Evaluate(ds, KeyRules[k]).Pass?;
    assert KeyRules[k] == RequiredRule(n, "nct_id");
  }

  lemma ForeignKeyPasses(ds: Dataset, n: TableName)
    requires AllPass(ds, ForeignKeyRules) && n != Trials
    ensures "nct_id" in ds.tables(Trials).columns
    ensures ForeignKey(ds.tables(n), "nct_id", TrialIds(ds), NameOf(n)).Pass?
  {
    var k := Position(n) - 1;
    assert ForeignKeyRules[k] == ForeignKeyRule(n, "nct_id");
    assert Evaluate(ds, ForeignKeyRules[k]).Pass?;
    ForeignKeyRuleVerdict(ds, n);
  }

  lemma ForeignKeyRuleVerdict(ds: Dataset, n: TableName)
    requires Evaluate(ds, ForeignKeyRule(n, "nct_id")).Pass?
    ensures "nct_id" in ds.tables(Trials).columns
    ensures ForeignKey(ds.tables(n), "nct_id", TrialIds(ds), NameOf(n)).Pass?
  {
  }

  /** After a passing run every (trial, arm) pair of the bridge table names an arm. */
  lemma PassedRunBridge(ds: Dataset)
    requires FirstFailure(ds, Catalog).Pass?
    ensures BridgeResolves(ds)
  {
    PassedRunPassesEachGroup(ds);
    assert Evaluate(ds, NonemptyRules[9]).Pass?;
    assert Evaluate(ds, KeyRules[7]).Pass?;
    assert Evaluate(ds, [BridgeRule][0]).Pass?;
  }

  /** After a passing run none of the nine loaded tables holds a nested value. */
  lemma PassedRunNoNestedValues(ds: Dataset)
    requires FirstFailure(ds, Catalog).Pass?
    ensures forall n :: NoNestedValues(ds.tables(n))
  {
    PassedRunPassesEachGroup(ds);
    forall n ensures NoNestedValues(ds.tables(n)) {
      NoComplexPasses(ds, n);
    }
  }

  lemma NoComplexPasses(ds: Dataset, n: TableName)
    requires AllPass(ds, NoComplexRules)
    ensures NoComplexTypes(ds.tables(n), NameOf(n)).Pass?
  {
    var k := Position(n);
    assert NoComplexRules[k] == NoComplexRule(n);
    assert Evaluate(ds, NoComplexRules[k]).Pass?;
    NoComplexRuleVerdict(ds, n);
  }

  lemma NoComplexRuleVerdict(ds: Dataset, n: TableName)
    requires Evaluate(ds, NoComplexRule(n)).Pass?
    ensures NoComplexTypes(ds.tables(n), NameOf(n)).Pass?
  {
  }

  /** After a passing run the bridge table holds no nested value either. */
  lemma PassedRunBridgeNoNestedValues(ds: Dataset)
    requires FirstFailure(ds, Catalog).Pass?
    ensures ds.armInterventions.Some? && NoNestedValues(ds.armInterventions.value)
  {
    PassedRunPassesEachGroup(ds);
    assert Evaluate(ds, NonemptyRules[9]).Pass?;
    assert Evaluate(ds, NoComplexRules[9]).Pass?;
  }

  /** After a passing run no trial completes, or completes its primary outcome, before it starts. */
  lemma PassedRunDatesOrdered(ds: Dataset)
    requires FirstFailure(ds, Catalog).Pass?
    ensures DatesOrdered(ds.tables(Trials), ds.parseDate)
  {
    PassedRunPassesEachGroup(ds);
    CompletionOrderPasses(ds);
    PrimaryCompletionOrderPasses(ds);
  }

  lemma CompletionOrderPasses(ds: Dataset)
    requires AllPass(ds, TrialsRules)
    ensures CompletionOrder(ds.tables(Trials), ds.parseDate).Pass?
  {
    assert Evaluate(ds, TrialsRules[3]).Pass?;
  }

  lemma PrimaryCompletionOrderPasses(ds: Dataset)
    requires AllPass(ds, TrialsRules)
    ensures PrimaryCompletionOrder(ds.tables(Trials), ds.parseDate).Pass?
  {
    assert Evaluate(ds, TrialsRules[4]).Pass?;
  }
}
