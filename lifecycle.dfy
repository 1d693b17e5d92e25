/**
 * Watcher bookkeeping: the initial backup that creates one watcher per include path of
 * every active rule, and the activation and deactivation of rules as drives come and go.
 */
module Lifecycle {
  import opened Paths
  import opened Seqs
  import opened Rules
  import opened Watching

  /** What a watcher is made of. */
  datatype WatchSpec = WatchSpec(sourcePath: Path, baseTargetPath: Path, sourceFolderName: string, ignorePaths: seq<string>)

  function SpecOf(w: Watcher): WatchSpec {
    WatchSpec(w.sourcePath, w.baseTargetPath, w.sourceFolderName, w.ignorePaths)
  }

  /** The watchers are, one for one and in order, the planned ones. */
  predicate Realises(ws: seq<Watcher>, plan: seq<WatchSpec>) {
    |ws| == |plan| && forall k :: 0 <= k < |ws| ==> SpecOf(ws[k]) == plan[k]
  }

  /** The watcher `backupSinglePath` creates for one include path of a rule. */
  function SpecFor(targetPath: Path, ignorePatterns: seq<string>, sourcePath: Path): WatchSpec {
    WatchSpec(sourcePath, targetPath, BaseName(sourcePath), ignorePatterns)
  }

  /** One watcher per listed include path, in order. */
  function PathsPlan(targetPath: Path, ignorePatterns: seq<string>, paths: seq<Path>): (r: seq<WatchSpec>)
    ensures |r| == |paths| && forall k :: 0 <= k < |paths| ==> r[k] == SpecFor(targetPath, ignorePatterns, paths[k])
  {
    if paths == [] then [] else PathsPlan(targetPath, ignorePatterns, paths[..|paths| - 1]) + [SpecFor(targetPath, ignorePatterns, paths[|paths| - 1])]
  }

  /** The watchers of a rule: one per include path when it is active, none otherwise. */
  function RulePlan(rule: Include): seq<WatchSpec>
    reads rule
  {
    if rule.isActive then PathsPlan(rule.targetPath, ArrangeIgnorePatterns(rule), rule.includePaths) else []
  }

  /** The watcher of a rule for its `j`-th include path. */
  function RuleSpec(rule: Include, j: nat): WatchSpec
    requires j < |rule.includePaths|
    reads rule
  {
    SpecFor(rule.targetPath, ArrangeIgnorePatterns(rule), rule.includePaths[j])
  }

  /** The watchers `ensureDataIsBackuped` creates, rule after rule. */
  function Plan(rules: seq<Include>): seq<WatchSpec>
    reads rules
  {
    if rules == [] then [] else Plan(rules[..|rules| - 1]) + RulePlan(rules[|rules| - 1])
  }

  lemma RulePlanMembership(rule: Include, s: WatchSpec)
    ensures s in RulePlan(rule) <==> rule.isActive && exists j :: 0 <= j < |rule.includePaths| && s == RuleSpec(rule, j)
  {
    if s in RulePlan(rule) {
      var j :| 0 <= j < |RulePlan(rule)| && RulePlan(rule)[j] == s;
      assert s == RuleSpec(rule, j);
    }
    if rule.isActive && exists j :: 0 <= j < |rule.includePaths| && s == RuleSpec(rule, j) {
      var j :| 0 <= j < |rule.includePaths| && s == RuleSpec(rule, j);
      assert RulePlan(rule)[j] == s;
    }
  }

  /**
   * The plan holds exactly one watcher for each include path of each active rule: a spec is
   * planned iff some active rule lists its source path.
   */
  lemma PlanMembership(rules: seq<Include>, s: WatchSpec)
    ensures s in Plan(rules) <==>
      exists i, j :: 0 <= i < |rules| && rules[i].isActive && 0 <= j < |rules[i].includePaths| && s == RuleSpec(rules[i], j)
  {
    if s in Plan(rules) {
      PlannedHasRule(rules, s);
    }
    if exists i, j :: 0 <= i < |rules| && rules[i].isActive && 0 <= j < |rules[i].includePaths| && s == RuleSpec(rules[i], j) {
      var i, j :| 0 <= i < |rules| && rules[i].isActive && 0 <= j < |rules[i].includePaths| && s == RuleSpec(rules[i], j);
      RuleSpecPlanned(rules, i, j);
    }
  }

  lemma {:induction false} PlannedHasRule(rules: seq<Include>, s: WatchSpec)
    requires s in Plan(rules)
    ensures exists i, j :: 0 <= i < |rules| && rules[i].isActive && 0 <= j < |rules[i].includePaths| && s == RuleSpec(rules[i], j)
    decreases |rules|
  {
    var n := |rules| - 1;
    var init, last := rules[..n], rules[n];
    assert Plan(rules) == Plan(init) + RulePlan(last);
    if s in Plan(init) {
      PlannedHasRule(init, s);
      var i, j :| 0 <= i < |init| && init[i].isActive && 0 <= j < |init[i].includePaths| && s == RuleSpec(init[i], j);
      assert rules[i] == init[i];
    } else {
      RulePlanMembership(last, s);
      var j :| 0 <= j < |last.includePaths| && s == RuleSpec(last, j);
      assert rules[n] == last;
    }
  }

  lemma {:induction false} RuleSpecPlanned(rules: seq<Include>, i: nat, j: nat)
    requires i < |rules| && rules[i].isActive && j < |rules[i].includePaths|
    ensures RuleSpec(rules[i], j) in Plan(rules)
    decreases |rules|
  {
    var n := |rules| - 1;
    var init, last := rules[..n], rules[n];
    assert Plan(rules) == Plan(init) + RulePlan(last);
    if i < n {
      assert init[i] == rules[i];
      RuleSpecPlanned(init, i, j);
    } else {
      RulePlanMembership(last, RuleSpec(last, j));
    }
  }

  /** The number of watchers is the number of include paths of the active rules. */
  lemma {:induction false} PlanSize(rules: seq<Include>)
    ensures |Plan(rules)| == ActivePathCount(rules)
    decreases |rules|
  {
    if rules != [] {
      PlanSize(rules[..|rules| - 1]);
    }
  }

  function ActivePathCount(rules: seq<Include>): nat
    reads rules
  {
    if rules == [] then 0
    else
      var last := rules[|rules| - 1];
      ActivePathCount(rules[..|rules| - 1]) + (if last.isActive then |last.includePaths| else 0)
  }

  /** `shutil.copytree` into the watcher's replica root with its ignore patterns; false is an `OSError`. */
  type CopyTree = (Path, Path, seq<string>) -> bool

  predicate Copied(copyTree: CopyTree, s: WatchSpec) {
    copyTree(s.sourcePath, Join(s.baseTargetPath, s.sourceFolderName), s.ignorePaths)
  }

  /** Every planned tree copies without an error. */
  ghost predicate AllCopied(copyTree: CopyTree, plan: seq<WatchSpec>) {
    forall s :: s in plan ==> Copied(copyTree, s)
  }

  /** No watcher of the list is started yet. */
  predicate Idle(ws: seq<Watcher>)
    reads ws
  {
    forall w :: w in ws ==> !w.running
  }

  lemma AllCopiedAppend(copyTree: CopyTree, p: seq<WatchSpec>, q: seq<WatchSpec>)
    requires AllCopied(copyTree, p) && AllCopied(copyTree, q)
    ensures AllCopied(copyTree, p + q)
  {
  }

  lemma RealisesAppend(a: seq<Watcher>, p: seq<WatchSpec>, b: seq<Watcher>, q: seq<WatchSpec>)
    requires Realises(a, p) && Realises(b, q)
    ensures Realises(a + b, p + q)
  {
  }

  /**
   * `backupSinglePath`: copy the tree, then, when monitoring, configure a watcher for it. A
   * copy error is raised again (`raiseError`), so no watcher is made.
   */
  method BackupSinglePath(rule: Include, ignorePatterns: seq<string>, sourcePath: Path, copyTree: CopyTree, watch: bool)
    returns (ok: bool, observers: seq<Watcher>)
    ensures ok == copyTree(sourcePath, Join(rule.targetPath, BaseName(sourcePath)), ignorePatterns)
    ensures observers == [] || (|observers| == 1 && ok && watch)
    ensures ok && watch ==> Realises(observers, [SpecFor(rule.targetPath, ignorePatterns, sourcePath)])
    ensures forall w :: w in observers ==> fresh(w)
    ensures Idle(observers)
  {
    var sourceFolderName := BaseName(sourcePath);
    var targetPath := Join(rule.targetPath, sourceFolderName);
    ok := copyTree(sourcePath, targetPath, ignorePatterns);
    observers := [];
    if ok && watch {
      var o := new Watcher(sourcePath, rule.targetPath, sourceFolderName, ignorePatterns);
      observers := [o];
    }
  }

  /**
   * `ensureDataIsBackuped`: copies every include path of every active rule and, when
   * monitoring (`watch`), returns the watchers to append to the caller's list. It stops at
   * the first copy error.
   */
  method EnsureDataIsBackuped(rules: seq<Include>, copyTree: CopyTree, watch: bool) returns (ok: bool, observers: seq<Watcher>)
    ensures ok <==> AllCopied(copyTree, Plan(rules))
    ensures ok && watch ==> Realises(observers, Plan(rules))
    ensures !watch ==> observers == []
    ensures Distinct(observers) && Idle(observers)
    ensures forall w :: w in observers ==> fresh(w)
  {
    observers := [];
    for i := 0 to |rules|
      invariant AllCopied(copyTree, Plan(rules[..i]))
      invariant Realises(observers, if watch then Plan(rules[..i]) else [])
      invariant Distinct(observers) && Idle(observers)
      invariant forall w :: w in observers ==> fresh(w)
    {
      ghost var donePlan, rulePlan := Plan(rules[..i]), RulePlan(rules[i]);
      assert rules[..i + 1][..i] == rules[..i];
      assert Plan(rules[..i + 1]) == donePlan + rulePlan;
      var ignorePatterns := ArrangeIgnorePatterns(rules[i]);
      var done, added := BackupRule(rules[i], ignorePatterns, copyTree, watch);
      assert Plan(rules[..i + 1]) == donePlan + rulePlan && RulePlan(rules[i]) == rulePlan;
      if !done {
        RulePlanInPlan(rules, i);
        return false, observers;
      }
      AllCopiedAppend(copyTree, donePlan, rulePlan);
      RealisesAppend(observers, if watch then donePlan else [], added, if watch then rulePlan else []);
      DistinctAppend(observers, added);
      observers := observers + added;
    }
    assert rules[..|rules|] == rules;
    ok := true;
  }

  /** The inner loop of `ensureDataIsBackuped`: the include paths of one rule, skipped when it is inactive. */
  method BackupRule(rule: Include, ignorePatterns: seq<string>, copyTree: CopyTree, watch: bool) returns (ok: bool, observers: seq<Watcher>)
    ensures ok <==> !rule.isActive || AllCopied(copyTree, PathsPlan(rule.targetPath, ignorePatterns, rule.includePaths))
    ensures ok && watch && rule.isActive ==> Realises(observers, PathsPlan(rule.targetPath, ignorePatterns, rule.includePaths))
    ensures !(watch && rule.isActive) ==> observers == []
    ensures Distinct(observers) && Idle(observers)
    ensures forall w :: w in observers ==> fresh(w)
  {
    var paths := rule.includePaths;
    ghost var planned := PathsPlan(rule.targetPath, ignorePatterns, paths);
    observers := [];
    for j := 0 to |paths|
      invariant rule.isActive ==> AllCopied(copyTree, planned[..j])
      invariant Realises(observers, if watch && rule.isActive then planned[..j] else [])
      invariant Distinct(observers) && Idle(observers)
      invariant forall w :: w in observers ==> fresh(w)
    {
      if rule.isActive {
        PrefixSnoc(planned, j);
        var done, added := BackupSinglePath(rule, ignorePatterns, paths[j], copyTree, watch);
        if !done {
          assert planned[j] in planned;
          return false, observers;
        }
        AllCopiedAppend(copyTree, planned[..j], [planned[j]]);
        RealisesAppend(observers, if watch then planned[..j] else [], added, if watch then [planned[j]] else []);
        DistinctAppend(observers, added);
        observers := observers + added;
      }
    }
    assert planned[..|paths|] == planned;
    ok := true;
  }

  /** Every watcher of an active rule is planned for any list of rules containing it. */
  lemma RulePlanInPlan(rules: seq<Include>, i: nat)
    requires i < |rules|
    ensures forall s :: s in RulePlan(rules[i]) ==> s in Plan(rules)
  {
    forall s | s in RulePlan(rules[i])
      ensures s in Plan(rules)
    {
      RulePlanMembership(rules[i], s);
      PlanMembership(rules, s);
    }
  }

  /** The program's list of working watchers, which activation extends and deactivation shrinks. */
  class WatcherList {
    var watchers: seq<Watcher>

    constructor()
      ensures watchers == [] && Valid()
    {
      watchers := [];
    }

    /** No watcher is listed twice. */
    predicate Valid()
      reads this
    {
      Distinct(watchers)
    }
  }

  /** `observeFileSystem`: starts every listed watcher. */
  method ObserveFileSystem(observers: seq<Watcher>)
    modifies set w | w in observers
    ensures forall w :: w in observers ==> w.running
  {
    for i := 0 to |observers|
      invariant forall k :: 0 <= k < i ==> observers[k].running
    {
      observers[i].Run();
    }
  }

  /**
   * `activateRules`: backs up the newly activated rules, starts their watchers and appends them
   * to the list. A copy error is raised out of the call, leaving the list as it was.
   */
  method ActivateRules(rules: seq<Include>, list: WatcherList, copyTree: CopyTree) returns (ok: bool)
    requires list.Valid()
    modifies list
    ensures list.Valid()
    ensures ok <==> AllCopied(copyTree, Plan(rules))
    ensures !ok ==> list.watchers == old(list.watchers)
    ensures ok ==> |old(list.watchers)| <= |list.watchers| && list.watchers[..|old(list.watchers)|] == old(list.watchers)
    ensures ok ==> Realises(list.watchers[|old(list.watchers)|..], Plan(rules))
    ensures forall i :: |old(list.watchers)| <= i < |list.watchers| ==> fresh(list.watchers[i]) && list.watchers[i].running
  {
    if |rules| == 0 {
      assert Plan(rules) == [];
      return true;
    }
    var done, added := EnsureDataIsBackuped(rules, copyTree, true);
    if !done {
      return false;
    }
    ok := true;
    if |added| > 0 {
      label Backed:
      ObserveFileSystem(added);
      PlanUnchanged@Backed(rules);
      DistinctAppend(list.watchers, added);
      list.watchers := list.watchers + added;
      assert list.watchers[|old(list.watchers)|..] == added;
      assert forall j :: 0 <= j < |added| ==> added[j] in added;
    }
  }

  /** The watcher was made for one of the rule's include paths, replicated into its target. */
  predicate BelongsTo(w: Watcher, rule: Include) {
    w.baseTargetPath == rule.targetPath && w.sourcePath in rule.includePaths
  }

  predicate BelongsToAny(w: Watcher, rules: seq<Include>) {
    exists k :: 0 <= k < |rules| && BelongsTo(w, rules[k])
  }

  /** The watchers that deactivating the rules removes. */
  function Removing(rules: seq<Include>): Watcher -> bool {
    (w: Watcher) => BelongsToAny(w, rules)
  }

  /** The watchers that remain once the rules are deactivated: those of no such rule, in order. */
  function Kept(ws: seq<Watcher>, rules: seq<Include>): seq<Watcher> {
    FilterBy(ws, Removing(rules), false)
  }

  /** A watcher is kept exactly when it was listed and belongs to none of the rules. */
  lemma KeptMembership(ws: seq<Watcher>, rules: seq<Include>, w: Watcher)
    ensures w in Kept(ws, rules) <==> w in ws && !BelongsToAny(w, rules)
  {
    FilterByMembership(ws, Removing(rules), false, w);
  }

  /** The kept watchers stay in their order: keeping distributes over concatenation. */
  lemma KeptOrder(a: seq<Watcher>, b: seq<Watcher>, rules: seq<Include>)
    ensures Kept(a + b, rules) == Kept(a, rules) + Kept(b, rules)
  {
    FilterByConcat(a, b, Removing(rules), false);
  }

  /** Every watcher that activating the rules creates belongs to one of them. */
  lemma PlannedWatchersBelong(ws: seq<Watcher>, rules: seq<Include>)
    requires Realises(ws, Plan(rules))
    ensures forall w :: w in ws ==> BelongsToAny(w, rules)
  {
    forall w | w in ws
      ensures BelongsToAny(w, rules)
    {
      var k :| 0 <= k < |ws| && ws[k] == w;
      PlanMembership(rules, SpecOf(w));
      var i, j :| 0 <= i < |rules| && rules[i].isActive && 0 <= j < |rules[i].includePaths| && SpecOf(w) == RuleSpec(rules[i], j);
      assert BelongsTo(w, rules[i]);
    }
  }

  /** So deactivating the rules just activated keeps none of the watchers they created. */
  lemma ReactivationRoundTrip(before: seq<Watcher>, added: seq<Watcher>, rules: seq<Include>)
    requires Realises(added, Plan(rules))
    ensures Kept(before + added, rules) == Kept(before, rules)
  {
    PlannedWatchersBelong(added, rules);
    KeptOrder(before, added, rules);
    FilterByNone(added, Removing(rules));
  }

  /**
   * When none of the earlier watchers belongs to the rules, activating and then deactivating
   * those rules restores the watcher list exactly.
   */
  lemma ReactivationRestores(before: seq<Watcher>, added: seq<Watcher>, rules: seq<Include>)
    requires Realises(added, Plan(rules))
    requires forall w :: w in before ==> !BelongsToAny(w, rules)
    ensures Kept(before + added, rules) == before
  {
    ReactivationRoundTrip(before, added, rules);
    FilterByAll(before, Removing(rules), false);
  }

  /**
   * `deactivateRules`, with each watcher removed only while it is still listed: every watcher
   * of a deactivated rule is stopped and removed, every other one stays in place.
   */
  method DeactivateRules(rules: seq<Include>, list: WatcherList)
    requires list.Valid()
    modifies list, list.watchers
    ensures list.Valid()
    ensures list.watchers == Kept(old(list.watchers), rules)
    ensures forall w :: w in old(list.watchers) ==> w.running == (old(w.running) && !BelongsToAny(w, rules))
  {
    var clone := list.watchers;
    FilterByAll(clone, Removing(rules[..0]), false);
    for i := 0 to |rules|
      invariant list.watchers == FilterBy(clone, Removing(rules[..i]), false)
      invariant forall w: Watcher :: w in clone ==> w.running == (old(w.running) && !Removing(rules[..i])(w))
    {
      StopRuleWatchers(rules[i], clone, list, Removing(rules[..i]));
      RemovingSnoc(rules, i);
      FilterByAgree(clone, OrRule(Removing(rules[..i]), rules[i]), Removing(rules[..i + 1]), false);
    }
    assert rules[..|rules|] == rules;
    FilterByDistinct(clone, Removing(rules), false);
  }

  lemma RemovingSnoc(rules: seq<Include>, i: nat)
    requires i < |rules|
    ensures forall w :: OrRule(Removing(rules[..i]), rules[i])(w) == Removing(rules[..i + 1])(w)
  {
    forall w ensures BelongsToAny(w, rules[..i + 1]) <==> BelongsToAny(w, rules[..i]) || BelongsTo(w, rules[i]) {
      if BelongsToAny(w, rules[..i + 1]) {
        var k :| 0 <= k < i + 1 && BelongsTo(w, rules[..i + 1][k]);
        if k < i { assert rules[..i][k] == rules[..i + 1][k]; }
      }
      if BelongsToAny(w, rules[..i]) {
        var k :| 0 <= k < i && BelongsTo(w, rules[..i][k]);
        assert rules[..i + 1][k] == rules[..i][k];
      }
      if BelongsTo(w, rules[i]) {
        assert rules[..i + 1][i] == rules[i];
      }
    }
  }

  /** Removed before, or a watcher of the rule. */
  function OrRule(removed: Watcher -> bool, rule: Include): Watcher -> bool {
    (w: Watcher) => removed(w) || BelongsTo(w, rule)
  }

  /** Removed before, or a watcher of the rule among those visited. */
  function Seen(removed: Watcher -> bool, rule: Include, seen: seq<Watcher>): Watcher -> bool {
    (w: Watcher) => removed(w) || (BelongsTo(w, rule) && w in seen)
  }

  /**
   * The inner loop of `deactivateRules` for one rule: every still-listed watcher of the rule,
   * taken from the snapshot of the list, is stopped and removed.
   */
  method StopRuleWatchers(rule: Include, clone: seq<Watcher>, list: WatcherList, ghost removed: Watcher -> bool)
    requires Distinct(clone) && list.watchers == FilterBy(clone, removed, false)
    requires forall w: Watcher :: w in clone && removed(w) ==> !w.running
    modifies list, clone
    ensures list.watchers == FilterBy(clone, OrRule(removed, rule), false)
    ensures forall w: Watcher :: w in clone ==> w.running == (old(w.running) && !OrRule(removed, rule)(w))
  {
    FilterByAgree(clone, removed, Seen(removed, rule, clone[..0]), false);
    ghost var visited: set<Watcher> := {};
    for j := 0 to |clone|
      invariant list.watchers == FilterBy(clone, Seen(removed, rule, clone[..j]), false)
      invariant forall k :: 0 <= k < j ==> clone[k] in visited
      invariant forall w: Watcher :: w in clone ==> w.running == (old(w.running) && !(BelongsTo(w, rule) && w in visited))
    {
      VisitWatcher(rule, clone, list, removed, j);
      visited := visited + {clone[j]};
    }
    assert clone[..|clone|] == clone;
    FilterByAgree(clone, Seen(removed, rule, clone), OrRule(removed, rule), false);
  }

  /** One iteration: the next watcher of the snapshot is stopped and removed if it is the rule's and still listed. */
  method VisitWatcher(rule: Include, clone: seq<Watcher>, list: WatcherList, ghost removed: Watcher -> bool, j: nat)
    requires Distinct(clone) && j < |clone|
    requires list.watchers == FilterBy(clone, Seen(removed, rule, clone[..j]), false)
    requires removed(clone[j]) ==> !clone[j].running
    modifies list, clone[j]
    ensures list.watchers == FilterBy(clone, Seen(removed, rule, clone[..j + 1]), false)
    ensures clone[j].running == (old(clone[j].running) && !BelongsTo(clone[j], rule))
  {
    var watcher := clone[j];
    SeenVisit(clone, removed, rule, j);
    if BelongsTo(watcher, rule) && watcher in list.watchers {
      watcher.Stop();
      SeenStep(clone, removed, rule, j);
      list.watchers := RemoveFirst(list.watchers, watcher);
    } else {
      FilterByAgree(clone, Seen(removed, rule, clone[..j]), Seen(removed, rule, clone[..j + 1]), false);
    }
  }

  /**
   * Visiting the next watcher of the snapshot changes the filter on it alone, and on it only
   * when it belongs to the rule and is still listed.
   */
  lemma SeenVisit(clone: seq<Watcher>, removed: Watcher -> bool, rule: Include, j: nat)
    requires Distinct(clone) && j < |clone|
    ensures forall y :: y in clone && y != clone[j] ==> Seen(removed, rule, clone[..j])(y) == Seen(removed, rule, clone[..j + 1])(y)
    ensures Seen(removed, rule, clone[..j])(clone[j]) == removed(clone[j])
    ensures Seen(removed, rule, clone[..j + 1])(clone[j]) == (removed(clone[j]) || BelongsTo(clone[j], rule))
    ensures clone[j] in FilterBy(clone, Seen(removed, rule, clone[..j]), false) <==> !removed(clone[j])
  {
    assert clone[..j + 1] == clone[..j] + [clone[j]];
    assert clone[j] !in clone[..j] by {
      forall k | 0 <= k < j ensures clone[..j][k] != clone[j] { assert clone[..j][k] == clone[k]; }
    }
    FilterByMembership(clone, Seen(removed, rule, clone[..j]), false, clone[j]);
  }

  lemma SeenStep(clone: seq<Watcher>, removed: Watcher -> bool, rule: Include, j: nat)
    requires Distinct(clone) && j < |clone| && BelongsTo(clone[j], rule) && !removed(clone[j])
    ensures clone[j] in FilterBy(clone, Seen(removed, rule, clone[..j]), false)
    ensures RemoveFirst(FilterBy(clone, Seen(removed, rule, clone[..j]), false), clone[j]) == FilterBy(clone, Seen(removed, rule, clone[..j + 1]), false)
  {
    SeenVisit(clone, removed, rule, j);
    FilterByRemoveOne(clone, Seen(removed, rule, clone[..j]), Seen(removed, rule, clone[..j + 1]), clone[j]);
  }

  /** Some listed watcher belongs to two of the rules. */
  predicate MatchedTwice(ws: seq<Watcher>, rules: seq<Include>) {
    exists w, i, j :: w in ws && 0 <= i < j < |rules| && BelongsTo(w, rules[i]) && BelongsTo(w, rules[j])
  }

  /**
   * `deactivateRules` as written: a watcher that an earlier rule already removed is removed
   * again when a later rule also matches it, and `list.remove` raises `ValueError` (`ok` is
   * false). Otherwise it does what `DeactivateRules` does.
   */
  method DeactivateRulesAsWritten(rules: seq<Include>, list: WatcherList) returns (ok: bool)
    requires list.Valid()
    modifies list, list.watchers
    ensures ok <==> !MatchedTwice(old(list.watchers), rules)
    ensures ok ==> list.Valid() && list.watchers == Kept(old(list.watchers), rules)
    ensures ok ==> forall w :: w in old(list.watchers) ==> w.running == (old(w.running) && !BelongsToAny(w, rules))
  {
    var clone := list.watchers;
    FilterByAll(clone, Removing(rules[..0]), false);
    for i := 0 to |rules|
      invariant list.watchers == FilterBy(clone, Removing(rules[..i]), false)
      invariant forall w: Watcher :: w in clone ==> w.running == (old(w.running) && !Removing(rules[..i])(w))
      invariant !MatchedTwice(clone, rules[..i])
    {
      var done := StopRuleWatchersAsWritten(rules[i], clone, list, Removing(rules[..i]));
      if !done {
        MatchedTwiceFound(clone, rules, i);
        return false;
      }
      MatchedTwiceStep(clone, rules, i);
      RemovingSnoc(rules, i);
      FilterByAgree(clone, OrRule(Removing(rules[..i]), rules[i]), Removing(rules[..i + 1]), false);
    }
    assert rules[..|rules|] == rules;
    FilterByDistinct(clone, Removing(rules), false);
    ok := true;
  }

  /** The inner loop as written: a matching watcher is stopped and then removed, listed or not. */
  method StopRuleWatchersAsWritten(rule: Include, clone: seq<Watcher>, list: WatcherList, ghost removed: Watcher -> bool)
    returns (ok: bool)
    requires Distinct(clone) && list.watchers == FilterBy(clone, removed, false)
    requires forall w: Watcher :: w in clone && removed(w) ==> !w.running
    modifies list, clone
    ensures ok <==> NoneRemoved(clone, rule, removed)
    ensures ok ==> list.watchers == FilterBy(clone, OrRule(removed, rule), false)
    ensures ok ==> forall w: Watcher :: w in clone ==> w.running == (old(w.running) && !OrRule(removed, rule)(w))
  {
    FilterByAgree(clone, removed, Seen(removed, rule, clone[..0]), false);
    ghost var visited: set<Watcher> := {};
    for j := 0 to |clone|
      invariant list.watchers == FilterBy(clone, Seen(removed, rule, clone[..j]), false)
      invariant forall k :: 0 <= k < j ==> clone[k] in visited
      invariant forall w: Watcher :: w in clone ==> w.running == (old(w.running) && !(BelongsTo(w, rule) && w in visited))
      invariant NoneRemoved(clone[..j], rule, removed)
    {
      NoneRemovedSnoc(clone, rule, removed, j);
      var done := VisitWatcherAsWritten(rule, clone, list, removed, j);
      if !done {
        NoneRemovedPrefix(clone, rule, removed, j + 1);
        return false;
      }
      visited := visited + {clone[j]};
    }
    assert clone[..|clone|] == clone;
    FilterByAgree(clone, Seen(removed, rule, clone), OrRule(removed, rule), false);
    ok := true;
  }

  /** One iteration as written: `list.remove` raises when the rule's watcher was removed already. */
  method VisitWatcherAsWritten(rule: Include, clone: seq<Watcher>, list: WatcherList, ghost removed: Watcher -> bool, j: nat)
    returns (ok: bool)
    requires Distinct(clone) && j < |clone|
    requires list.watchers == FilterBy(clone, Seen(removed, rule, clone[..j]), false)
    requires removed(clone[j]) ==> !clone[j].running
    modifies list, clone[j]
    ensures ok <==> !(BelongsTo(clone[j], rule) && removed(clone[j]))
    ensures ok ==> list.watchers == FilterBy(clone, Seen(removed, rule, clone[..j + 1]), false)
    ensures clone[j].running == (old(clone[j].running) && !BelongsTo(clone[j], rule))
  {
    var watcher := clone[j];
    SeenVisit(clone, removed, rule, j);
    ok := true;
    if BelongsTo(watcher, rule) {
      watcher.Stop();
      if watcher !in list.watchers {
        return false;
      }
      SeenStep(clone, removed, rule, j);
      list.watchers := RemoveFirst(list.watchers, watcher);
    } else {
      FilterByAgree(clone, Seen(removed, rule, clone[..j]), Seen(removed, rule, clone[..j + 1]), false);
    }
  }

  /** No watcher of the rule among these was removed before. */
  predicate NoneRemoved(ws: seq<Watcher>, rule: Include, removed: Watcher -> bool) {
    forall k :: 0 <= k < |ws| && BelongsTo(ws[k], rule) ==> !removed(ws[k])
  }

  lemma NoneRemovedSnoc(ws: seq<Watcher>, rule: Include, removed: Watcher -> bool, j: nat)
    requires j < |ws|
    ensures NoneRemoved(ws[..j + 1], rule, removed) <==>
      NoneRemoved(ws[..j], rule, removed) && !(BelongsTo(ws[j], rule) && removed(ws[j]))
  {
    assert ws[..j + 1] == ws[..j] + [ws[j]];
  }

  lemma NoneRemovedPrefix(ws: seq<Watcher>, rule: Include, removed: Watcher -> bool, j: nat)
    requires j <= |ws| && !NoneRemoved(ws[..j], rule, removed)
    ensures !NoneRemoved(ws, rule, removed)
  {
    var k :| 0 <= k < j && BelongsTo(ws[..j][k], rule) && removed(ws[..j][k]);
    assert ws[..j][k] == ws[k];
  }

  /** A watcher of the next rule that an earlier rule removed is matched twice. */
  lemma MatchedTwiceFound(ws: seq<Watcher>, rules: seq<Include>, i: nat)
    requires i < |rules|
    requires !NoneRemoved(ws, rules[i], Removing(rules[..i]))
    ensures MatchedTwice(ws, rules)
  {
    var k :| 0 <= k < |ws| && BelongsTo(ws[k], rules[i]) && Removing(rules[..i])(ws[k]);
    var e :| 0 <= e < i && BelongsTo(ws[k], rules[..i][e]);
    assert rules[..i][e] == rules[e];
    assert ws[k] in ws;
  }

  /** No watcher is matched twice by the first rules when none of the next rule's was removed before. */
  lemma MatchedTwiceStep(ws: seq<Watcher>, rules: seq<Include>, i: nat)
    requires i < |rules| && !MatchedTwice(ws, rules[..i])
    requires NoneRemoved(ws, rules[i], Removing(rules[..i]))
    ensures !MatchedTwice(ws, rules[..i + 1])
  {
    var next := rules[..i + 1];
    forall w, a, b | w in ws && 0 <= a < b < i + 1
      ensures !(BelongsTo(w, next[a]) && BelongsTo(w, next[b]))
    {
      assert next[a] == rules[..i][a];
      if b < i {
        assert next[b] == rules[..i][b];
      } else if BelongsTo(w, next[b]) {
        var k :| 0 <= k < |ws| && ws[k] == w;
        assert !Removing(rules[..i])(ws[k]);
      }
    }
  }

  /**
   * Two rules that back the same folder up into the same target, each with its watcher, lose
   * their drive together: as written, the second rule removes the first rule's watcher again.
   */
  method SharedFolderDeactivationRaises() returns (ok: bool)
    ensures !ok
  {
    var first := new Include(["C:\\Docs"], "E:\\Backup", []);
    var second := new Include(["C:\\Docs"], "E:\\Backup", []);
    var w1 := new Watcher("C:\\Docs", "E:\\Backup", "Docs", []);
    var w2 := new Watcher("C:\\Docs", "E:\\Backup", "Docs", []);
    var list := new WatcherList();
    list.watchers := [w1, w2];
    assert BelongsTo(w1, first) && BelongsTo(w1, second);
    assert MatchedTwice([w1, w2], [first, second]) by {
      assert w1 in [w1, w2] && [first, second][0] == first && [first, second][1] == second;
    }
    ok := DeactivateRulesAsWritten([first, second], list);
  }

  /** The same situation with the corrected loop: both watchers are stopped and removed. */
  method SharedFolderDeactivationRemoves() returns (remaining: seq<Watcher>, stopped: bool)
    ensures remaining == [] && stopped
  {
    var first := new Include(["C:\\Docs"], "E:\\Backup", []);
    var second := new Include(["C:\\Docs"], "E:\\Backup", []);
    var w1 := new Watcher("C:\\Docs", "E:\\Backup", "Docs", []);
    var w2 := new Watcher("C:\\Docs", "E:\\Backup", "Docs", []);
    w1.Run();
    w2.Run();
    var list := new WatcherList();
    list.watchers := [w1, w2];
    assert BelongsToAny(w1, [first, second]) by { assert BelongsTo(w1, [first, second][0]); }
    assert BelongsToAny(w2, [first, second]) by { assert BelongsTo(w2, [first, second][0]); }
    DeactivateRules([first, second], list);
    assert [w1, w2] == [w1] + [w2];
    FilterByConcat([w1], [w2], Removing([first, second]), false);
    remaining := list.watchers;
    stopped := !w1.running && !w2.running;
  }

  // ----- device changes -----

  /** Every rule of the list has its target drive present, or every one has it absent. */
  predicate DrivesAre(rules: seq<Include>, host: Host, present: bool) {
    forall k :: 0 <= k < |rules| ==> DriveExists(host, rules[k].targetPath) == present
  }

  /** The rules that rose have their drive, the rules that fell have lost it. */
  lemma FlippedDrives(rules: seq<Include>, was: seq<bool>, host: Host, to: bool)
    requires |was| == |rules|
    ensures DrivesAre(Flipped(rules, was, DriveFlags(rules, host), to), host, to)
  {
    var now := DriveFlags(rules, host);
    var r := Flipped(rules, was, now, to);
    forall k | 0 <= k < |r|
      ensures DriveExists(host, r[k].targetPath) == to
    {
      FlippedMembership(rules, was, now, to, r[k]);
    }
  }

  /**
   * The watchers created for rules whose drive is present belong to no rule whose drive is
   * absent, because belonging needs the same target path.
   */
  lemma PlannedNotRemoved(added: seq<Watcher>, rose: seq<Include>, fell: seq<Include>, host: Host)
    requires Realises(added, Plan(rose)) && DrivesAre(rose, host, true) && DrivesAre(fell, host, false)
    ensures forall w :: w in added ==> !BelongsToAny(w, fell)
  {
    PlannedWatchersBelong(added, rose);
    forall w | w in added
      ensures !BelongsToAny(w, fell)
    {
      var i :| 0 <= i < |rose| && BelongsTo(w, rose[i]);
      assert DriveExists(host, w.baseTargetPath);
    }
  }

  /** Appending watchers that none of the rules matches does not change what is kept before them. */
  lemma KeptAfterAppend(before: seq<Watcher>, added: seq<Watcher>, fell: seq<Include>)
    requires forall w :: w in added ==> !BelongsToAny(w, fell)
    ensures Kept(before + added, fell) == Kept(before, fell) + added
  {
    KeptOrder(before, added, fell);
    FilterByAll(added, Removing(fell), false);
  }

  /** The plan of rules none of which has changed. */
  twostate lemma PlanUnchanged(rules: seq<Include>)
    requires forall k :: 0 <= k < |rules| ==> unchanged(rules[k])
    ensures Plan(rules) == old(Plan(rules))
  {
  }

  /**
   * `deactivateRules`, skipped when there is no rule, on a list that ends with watchers none of
   * the rules matches: those stay at the end of the list and keep running.
   */
  method DeactivateBeforeAppended(fell: seq<Include>, list: WatcherList, ghost before: seq<Watcher>, ghost added: seq<Watcher>)
    requires list.Valid() && list.watchers == before + added
    requires forall w :: w in added ==> !BelongsToAny(w, fell)
    modifies list, list.watchers
    ensures list.Valid() && list.watchers == Kept(before, fell) + added
    ensures forall w :: w in before ==> w.running == (old(w.running) && !BelongsToAny(w, fell))
    ensures forall w :: w in added ==> w.running == old(w.running)
  {
    KeptAfterAppend(before, added, fell);
    if |fell| > 0 {
      DeactivateRules(fell, list);
    } else {
      FilterByAll(before, Removing(fell), false);
      FilterByAll(before + added, Removing(fell), false);
    }
  }

  /**
   * The two callbacks `runDeviceWatcher` installs, called in order: the rules that rose are
   * backed up and watched, then the watchers of the rules that fell are stopped and removed.
   * Either one is skipped when its list is empty, and a copy error ends the call before the
   * second one (`ok` is then false).
   */
  method ApplyDriveChanges(rose: seq<Include>, fell: seq<Include>, host: Host, list: WatcherList, copyTree: CopyTree)
    returns (ok: bool)
    requires list.Valid() && DrivesAre(rose, host, true) && DrivesAre(fell, host, false)
    modifies list, list.watchers
    ensures list.Valid()
    ensures ok <==> AllCopied(copyTree, Plan(rose))
    ensures !ok ==> list.watchers == old(list.watchers)
    ensures
      var kept := Kept(old(list.watchers), fell);
      ok ==> |kept| <= |list.watchers| && list.watchers[..|kept|] == kept && Realises(list.watchers[|kept|..], Plan(rose))
    ensures ok ==> forall w :: w in old(list.watchers) ==> w.running == (old(w.running) && !BelongsToAny(w, fell))
    ensures ok ==> forall i :: |Kept(old(list.watchers), fell)| <= i < |list.watchers| ==> fresh(list.watchers[i]) && list.watchers[i].running
  {
    ghost var before := list.watchers;
    ghost var plan := Plan(rose);
    ok := true;
    if |rose| > 0 {
      ok := ActivateRules(rose, list, copyTree);
      if !ok {
        return;
      }
    } else {
      assert plan == [];
    }
    assert AllCopied(copyTree, plan);
    ghost var after := list.watchers;
    ghost var added := after[|before|..];
    PrefixThenRest(after, before);
    assert Realises(added, plan);
    assert forall i :: 0 <= i < |after| ==> (i < |before| && after[i] == before[i]) || fresh(after[i]);
    PlannedNotRemoved(added, rose, fell, host);
    label Activated:
    DeactivateBeforeAppended(fell, list, before, added);
    ConcatParts(Kept(before, fell), added);
    PlanUnchanged@Activated(rose);
  }

  /**
   * `DevicesWatcher.devicesChanged`: the drive visitor recomputes every rule's flag and
   * collects the rules whose flag rose and fell, which `ApplyDriveChanges` then handles.
   */
  method DevicesChanged(config: Configuration, host: Host, list: WatcherList, copyTree: CopyTree) returns (ok: bool)
    requires config.Valid() && list.Valid()
    modifies config.includes`isActive, list, list.watchers
    ensures list.Valid()
    ensures forall k :: 0 <= k < |config.includes| ==> config.includes[k].isActive == DriveExists(host, config.includes[k].targetPath)
    ensures
      var rose := Flipped(config.includes, old(ActiveFlags(config.includes)), DriveFlags(config.includes, host), true);
      var fell := Flipped(config.includes, old(ActiveFlags(config.includes)), DriveFlags(config.includes, host), false);
      var kept := Kept(old(list.watchers), fell);
      (ok <==> AllCopied(copyTree, Plan(rose))) &&
      (!ok ==> list.watchers == old(list.watchers)) &&
      (ok ==> |kept| <= |list.watchers| && list.watchers[..|kept|] == kept && Realises(list.watchers[|kept|..], Plan(rose))) &&
      (ok ==> forall w :: w in old(list.watchers) ==> w.running == (old(w.running) && !BelongsToAny(w, fell))) &&
      (ok ==> forall i :: |kept| <= i < |list.watchers| ==> fresh(list.watchers[i]) && list.watchers[i].running)
  {
    ghost var was := ActiveFlags(config.includes);
    ghost var before := list.watchers;
    ghost var now := DriveFlags(config.includes, host);
    var visitor := new UpdateActiveDrivesVisitor();
    config.AcceptUpdateActiveDrives(visitor, host);
    var rose, fell := visitor.activatedRules, visitor.deactivatedRules;
    assert rose == Flipped(config.includes, was, now, true);
    assert fell == Flipped(config.includes, was, now, false);
    assert list.watchers == before;
    FlippedDrives(config.includes, was, host, true);
    FlippedDrives(config.includes, was, host, false);
    assert forall k, i :: 0 <= k < |config.includes| && 0 <= i < |list.watchers| ==> config.includes[k] as object != list.watchers[i];
    ok := ApplyDriveChanges(rose, fell, host, list, copyTree);
  }
}
