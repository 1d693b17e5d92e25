/**
 * The configuration rule model: decoding the already-parsed configuration object into
 * include rules, and the two visitors that prune a rule's excludes and recompute whether
 * its target drive is present.
 */
module Rules {
  import opened Wrappers
  import opened Paths
  import opened Seqs

  /** The filesystem queries the loader and the drive visitor make: `os.path.exists`, `os.path.abspath`. */
  datatype Host = Host(present: Path -> bool, abspath: Path -> Path)

  /** `os.path.exists`, which is false for the empty path whatever the filesystem holds. */
  predicate PathExists(host: Host, p: Path) {
    p != [] && host.present(p)
  }

  /** The ways loading a configuration fails. */
  datatype ConfigError =
    | NoIncludePaths     // "You have not specified any valid include paths"
    | PathsNotIterable   // a rule without a "paths" key: `list(None)` raises TypeError
    | NoIncludes         // "No includes specified"

  /**
   * One element of the "includes" array after JSON decoding: `None` marks an absent key, and
   * `otherKeys` records whether the object has keys besides the three the loader reads.
   */
  datatype IncludeObj = IncludeObj(
    paths: Option<seq<string>>,
    targetPath: Option<string>,
    excludes: Option<seq<string>>,
    otherKeys: bool)
  {
    /** Python truthiness of the dictionary: only `{}` is false. */
    predicate Truthy() {
      paths.Some? || targetPath.Some? || excludes.Some? || otherKeys
    }
  }

  /** The decoded configuration file; an element `None` of "includes" is a JSON null. */
  datatype ConfigObj = ConfigObj(includes: Option<seq<Option<IncludeObj>>>)

  /** What an include rule holds once loaded. */
  datatype RuleData = RuleData(includePaths: seq<Path>, targetPath: Path, excludes: seq<Path>)

  /**
   * `existentPaths`: the absolute form of every configured path that exists, in order; a
   * path that does not exist is dropped with a warning.
   */
  function ExistentPaths(host: Host, paths: seq<Path>): (r: seq<Path>)
    ensures |r| <= |paths|
  {
    if paths == [] then []
    else (if PathExists(host, paths[0]) then [host.abspath(paths[0])] else []) + ExistentPaths(host, paths[1..])
  }

  /** When every configured path exists, each is kept, made absolute, in its place. */
  lemma {:induction false} ExistentPathsAll(host: Host, paths: seq<Path>)
    requires forall k :: 0 <= k < |paths| ==> PathExists(host, paths[k])
    ensures |ExistentPaths(host, paths)| == |paths|
    ensures forall k :: 0 <= k < |paths| ==> ExistentPaths(host, paths)[k] == host.abspath(paths[k])
    decreases |paths|
  {
    if paths != [] {
      ExistentPathsAll(host, paths[1..]);
    }
  }

  /** Nothing is left exactly when no configured path exists. */
  lemma {:induction false} ExistentPathsEmpty(host: Host, paths: seq<Path>)
    ensures ExistentPaths(host, paths) == [] <==> forall p :: p in paths ==> !PathExists(host, p)
    decreases |paths|
  {
    if paths != [] {
      ExistentPathsEmpty(host, paths[1..]);
      assert paths == [paths[0]] + paths[1..];
    }
  }

  /** A kept path is the absolute form of a configured path that exists, and every such form is kept. */
  lemma {:induction false} ExistentPathsMembership(host: Host, paths: seq<Path>, q: Path)
    ensures q in ExistentPaths(host, paths) <==> exists p :: p in paths && PathExists(host, p) && host.abspath(p) == q
    decreases |paths|
  {
    if paths != [] {
      ExistentPathsMembership(host, paths[1..], q);
      assert paths == [paths[0]] + paths[1..];
      if PathExists(host, paths[0]) && host.abspath(paths[0]) == q {
        assert q in ExistentPaths(host, paths);
      }
    }
  }

  /** `str(obj.get(TARGET_PATH))`: an absent key prints as "None". */
  function TargetText(targetPath: Option<string>): string {
    if targetPath.Some? then targetPath.value else "None"
  }

  /** The excludes of a rule: filtered like the include paths when the key holds a non-empty list. */
  function ExcludesOf(host: Host, excludes: Option<seq<string>>): seq<Path> {
    if excludes.Some? && excludes.value != [] then ExistentPaths(host, excludes.value) else []
  }

  /**
   * `Include.fromObject` as a function of the decoded object: a rule is produced exactly
   * when it lists at least one existing path, and it then holds those paths (made
   * absolute) in their configured order.
   */
  function DecodeRule(host: Host, obj: IncludeObj): (r: Result<RuleData, ConfigError>)
    ensures r.Success? <==> obj.paths.Some? && exists p :: p in obj.paths.value && PathExists(host, p)
    ensures r.Failure? ==> r.error == (if obj.paths.None? then PathsNotIterable else NoIncludePaths)
    ensures r.Success? ==> r.value.includePaths != [] && r.value.includePaths == ExistentPaths(host, obj.paths.value)
    ensures r.Success? ==> r.value.targetPath == host.abspath(TargetText(obj.targetPath))
    ensures r.Success? ==> r.value.excludes == (if obj.excludes.Some? then ExistentPaths(host, obj.excludes.value) else [])
  {
    match obj.paths
    case None => Failure(PathsNotIterable)
    case Some(paths) =>
      if paths == [] then Failure(NoIncludePaths)
      else
        var found := ExistentPaths(host, paths);
        ExistentPathsEmpty(host, paths);
        if found == [] then Failure(NoIncludePaths)
        else Success(RuleData(found, host.abspath(TargetText(obj.targetPath)), ExcludesOf(host, obj.excludes)))
  }

  /** The elements of "includes" that `parseIncludes` passes on: the truthy objects, in order. */
  function TruthyItems(items: seq<Option<IncludeObj>>): (r: seq<IncludeObj>)
    ensures |r| <= |items|
  {
    if items == [] then []
    else
      var last := items[|items| - 1];
      TruthyItems(items[..|items| - 1]) + (if last.Some? && last.value.Truthy() then [last.value] else [])
  }

  /** The loop of `parseIncludes`: the rules of the truthy items in order, or the first error raised. */
  function DecodeItems(host: Host, items: seq<Option<IncludeObj>>): Result<seq<RuleData>, ConfigError> {
    if items == [] then Success([])
    else
      match DecodeItems(host, items[..|items| - 1])
      case Failure(e) => Failure(e)
      case Success(rules) =>
        var last := items[|items| - 1];
        if last.None? || !last.value.Truthy() then Success(rules)
        else
          match DecodeRule(host, last.value)
          case Failure(e) => Failure(e)
          case Success(rule) => Success(rules + [rule])
  }

  /** `parseIncludes`: `None` when "includes" is absent or empty or yields no rule. */
  function DecodeIncludes(host: Host, obj: ConfigObj): Result<Option<seq<RuleData>>, ConfigError> {
    if obj.includes.None? || obj.includes.value == [] then Success(None)
    else
      match DecodeItems(host, obj.includes.value)
      case Failure(e) => Failure(e)
      case Success(rules) => if rules == [] then Success(None) else Success(Some(rules))
  }

  /** `Configuration.fromObj`: the rules, or an error when there are none. */
  function DecodeConfig(host: Host, obj: ConfigObj): Result<seq<RuleData>, ConfigError> {
    match DecodeIncludes(host, obj)
    case Failure(e) => Failure(e)
    case Success(None) => Failure(NoIncludes)
    case Success(Some(rules)) => Success(rules)
  }

  /** Every truthy item decodes to a rule. */
  ghost predicate AllDecode(host: Host, objs: seq<IncludeObj>) {
    forall k :: 0 <= k < |objs| ==> DecodeRule(host, objs[k]).Success?
  }

  /** The loop yields the rules of the truthy items, one each and in order, unless one of them fails. */
  lemma {:induction false} DecodeItemsSpec(host: Host, items: seq<Option<IncludeObj>>)
    ensures DecodeItems(host, items).Success? <==> AllDecode(host, TruthyItems(items))
    ensures DecodeItems(host, items).Success? ==>
      var rules, objs := DecodeItems(host, items).value, TruthyItems(items);
      |rules| == |objs| && forall k :: 0 <= k < |rules| ==> DecodeRule(host, objs[k]) == Success(rules[k])
    ensures DecodeItems(host, items).Failure? ==>
      exists k :: 0 <= k < |TruthyItems(items)| && AllDecode(host, TruthyItems(items)[..k]) &&
        DecodeRule(host, TruthyItems(items)[k]) == Failure(DecodeItems(host, items).error)
    decreases |items|
  {
    if items != [] {
      var init, last := items[..|items| - 1], items[|items| - 1];
      DecodeItemsSpec(host, init);
      var objs := TruthyItems(init);
      if last.Some? && last.value.Truthy() {
        assert TruthyItems(items) == objs + [last.value];
        assert forall k :: 0 <= k < |objs| ==> TruthyItems(items)[k] == objs[k];
        assert forall k :: 0 <= k <= |objs| ==> TruthyItems(items)[..k] == objs[..k];
        if DecodeItems(host, init).Success? && DecodeRule(host, last.value).Failure? {
          assert TruthyItems(items)[..|objs|] == objs;
          assert DecodeRule(host, TruthyItems(items)[|objs|]) == Failure(DecodeItems(host, items).error);
        }
      } else {
        assert TruthyItems(items) == objs;
      }
    }
  }

  /**
   * Loading succeeds exactly when "includes" holds at least one truthy object and every one
   * of them lists an existing path; the rules are then those objects' rules, in order.
   */
  lemma DecodeConfigSpec(host: Host, obj: ConfigObj)
    ensures DecodeConfig(host, obj).Success? <==>
      obj.includes.Some? && TruthyItems(obj.includes.value) != [] && AllDecode(host, TruthyItems(obj.includes.value))
    ensures DecodeConfig(host, obj).Success? ==>
      var rules, objs := DecodeConfig(host, obj).value, TruthyItems(obj.includes.value);
      |rules| == |objs| && forall k :: 0 <= k < |rules| ==> DecodeRule(host, objs[k]) == Success(rules[k])
    ensures DecodeConfig(host, obj).Failure? ==>
      (DecodeConfig(host, obj).error == NoIncludes <==> obj.includes.None? || TruthyItems(obj.includes.value) == [])
    ensures DecodeConfig(host, obj).Failure? && DecodeConfig(host, obj).error != NoIncludes ==>
      exists k :: 0 <= k < |TruthyItems(obj.includes.value)| && AllDecode(host, TruthyItems(obj.includes.value)[..k]) &&
        DecodeRule(host, TruthyItems(obj.includes.value)[k]) == Failure(DecodeConfig(host, obj).error)
  {
    if obj.includes.Some? {
      DecodeItemsSpec(host, obj.includes.value);
    }
  }

  /** An include rule: only its excludes and its active flag change after loading. */
  class Include {
    var isActive: bool
    const includePaths: seq<Path>
    const targetPath: Path
    var excludes: seq<Path>

    constructor(includes: seq<Path>, targetPath: Path, excludes: seq<Path>)
      ensures isActive && includePaths == includes && this.targetPath == targetPath && this.excludes == excludes
    {
      isActive := true;
      includePaths := includes;
      this.targetPath := targetPath;
      this.excludes := excludes;
    }

    /** The loaded contents of the rule. */
    function Data(): RuleData
      reads this
    {
      RuleData(includePaths, targetPath, excludes)
    }

    /** `Include.fromObject`: a fresh active rule, or the error the loader raises. */
    static method FromObject(host: Host, obj: IncludeObj) returns (r: Result<Include, ConfigError>)
      ensures r.Success? <==> DecodeRule(host, obj).Success?
      ensures r.Failure? ==> r.error == DecodeRule(host, obj).error
      ensures r.Success? ==> fresh(r.value) && r.value.isActive && r.value.Data() == DecodeRule(host, obj).value
    {
      if obj.paths.None? {
        return Failure(PathsNotIterable);
      }
      var paths := obj.paths.value;
      if |paths| == 0 {
        return Failure(NoIncludePaths);
      }
      paths := ExistentPaths(host, paths);
      if |paths| == 0 {
        return Failure(NoIncludePaths);
      }
      var targetPath := host.abspath(TargetText(obj.targetPath));
      var excludes := obj.excludes;
      var excludePaths: seq<Path>;
      if excludes.Some? && |excludes.value| > 0 {
        excludePaths := ExistentPaths(host, excludes.value);
      } else {
        excludePaths := [];
      }
      var rule := new Include(paths, targetPath, excludePaths);
      return Success(rule);
    }

    /** `Include.accept` with the validation visitor: the visitor sees the rule, then each exclude of a copy. */
    method AcceptValidation(visitor: ValidationVisitor)
      modifies visitor, this`excludes
      ensures visitor.parentInclude == this
      ensures excludes == Pruned(old(excludes), includePaths)
    {
      visitor.VisitInclude(this);
      var snapshot := excludes;
      for k := 0 to |snapshot|
        invariant visitor.parentInclude == this
        invariant excludes == Pruned(snapshot[..k], includePaths) + snapshot[k..]
      {
        PruneStep(snapshot, k, includePaths);
        visitor.VisitExclude(snapshot[k]);
      }
      assert snapshot[..|snapshot|] == snapshot;
    }

    /** `Include.accept` with the drive visitor, whose `visitExclude` is the base class's no-op. */
    method AcceptUpdateActiveDrives(visitor: UpdateActiveDrivesVisitor, host: Host)
      modifies visitor, this`isActive
      ensures isActive == DriveExists(host, targetPath)
      ensures visitor.activatedRules == old(visitor.activatedRules) + (if !old(isActive) && isActive then [this] else [])
      ensures visitor.deactivatedRules == old(visitor.deactivatedRules) + (if old(isActive) && !isActive then [this] else [])
    {
      visitor.VisitInclude(this, host);
    }
  }

  /** The loaded contents of a list of rules. */
  function RulesOf(rules: seq<Include>): (r: seq<RuleData>)
    reads rules
    ensures |r| == |rules| && forall k :: 0 <= k < |rules| ==> r[k] == rules[k].Data()
  {
    if rules == [] then [] else RulesOf(rules[..|rules| - 1]) + [rules[|rules| - 1].Data()]
  }

  /** Appending a rule not yet in the list extends its contents by that rule's and keeps it duplicate-free. */
  lemma AppendRule(rules: seq<Include>, rule: Include)
    requires Distinct(rules) && rule !in rules
    ensures RulesOf(rules + [rule]) == RulesOf(rules) + [rule.Data()]
    ensures Distinct(rules + [rule])
  {
    assert (rules + [rule])[..|rules|] == rules;
    DistinctAppend(rules, [rule]);
  }

  /** The active flags of a list of rules. */
  function ActiveFlags(rules: seq<Include>): (r: seq<bool>)
    reads rules
    ensures |r| == |rules| && forall k :: 0 <= k < |rules| ==> r[k] == rules[k].isActive
  {
    if rules == [] then [] else ActiveFlags(rules[..|rules| - 1]) + [rules[|rules| - 1].isActive]
  }

  /** Whether each rule's target drive is present. */
  function DriveFlags(rules: seq<Include>, host: Host): (r: seq<bool>)
    ensures |r| == |rules| && forall k :: 0 <= k < |rules| ==> r[k] == DriveExists(host, rules[k].targetPath)
  {
    if rules == [] then [] else DriveFlags(rules[..|rules| - 1], host) + [DriveExists(host, rules[|rules| - 1].targetPath)]
  }

  class Configuration {
    const includes: seq<Include>

    constructor(includes: seq<Include>)
      ensures this.includes == includes
    {
      this.includes := includes;
    }

    /** Each rule is its own object, as loading makes them. */
    predicate Valid() {
      Distinct(includes)
    }

    /** `Configuration.parseIncludes`: one fresh rule per truthy object, or `None`, or the first error. */
    static method ParseIncludes(host: Host, obj: ConfigObj) returns (r: Result<Option<seq<Include>>, ConfigError>)
      ensures r.Success? <==> DecodeIncludes(host, obj).Success?
      ensures r.Failure? ==> r.error == DecodeIncludes(host, obj).error
      ensures r.Success? ==> (r.value.Some? <==> DecodeIncludes(host, obj).value.Some?)
      ensures r.Success? && r.value.Some? ==>
        var rules := r.value.value;
        RulesOf(rules) == DecodeIncludes(host, obj).value.value && Distinct(rules) &&
        forall x :: x in rules ==> fresh(x) && x.isActive
    {
      var includesObj := obj.includes;
      if includesObj.Some? && |includesObj.value| > 0 {
        var includes := ParseItems(host, includesObj.value);
        if includes.Failure? {
          return Failure(includes.error);
        }
        if |includes.value| > 0 {
          return Success(Some(includes.value));
        }
      }
      return Success(None);
    }

    /** The loop of `parseIncludes`: one fresh rule per truthy item, in order, or the first error. */
    static method ParseItems(host: Host, items: seq<Option<IncludeObj>>) returns (r: Result<seq<Include>, ConfigError>)
      ensures r.Failure? <==> DecodeItems(host, items).Failure?
      ensures r.Failure? ==> r.error == DecodeItems(host, items).error
      ensures r.Success? ==>
        DecodeItems(host, items) == Success(RulesOf(r.value)) && Distinct(r.value) &&
        forall x :: x in r.value ==> fresh(x) && x.isActive
    {
      var includes: seq<Include> := [];
      for i := 0 to |items|
        invariant DecodeItems(host, items[..i]) == Success(RulesOf(includes))
        invariant Distinct(includes)
        invariant forall x :: x in includes ==> fresh(x) && x.isActive
      {
        DecodeItemsStep(host, items, i);
        var includeObj := items[i];
        if includeObj.Some? && includeObj.value.Truthy() {
          var rule := Include.FromObject(host, includeObj.value);
          if rule.Failure? {
            DecodeItemsFailurePersists(host, items, i + 1);
            return Failure(rule.error);
          }
          AppendRule(includes, rule.value);
          includes := includes + [rule.value];
        }
      }
      assert items[..|items|] == items;
      return Success(includes);
    }

    /** `Configuration.fromObj`. */
    static method FromObj(host: Host, obj: ConfigObj) returns (r: Result<Configuration, ConfigError>)
      ensures r.Success? <==> DecodeConfig(host, obj).Success?
      ensures r.Failure? ==> r.error == DecodeConfig(host, obj).error
      ensures r.Success? ==>
        var rules := r.value.includes;
        fresh(r.value) && r.value.Valid() && RulesOf(rules) == DecodeConfig(host, obj).value &&
        forall x :: x in rules ==> fresh(x) && x.isActive
    {
      var includes := ParseIncludes(host, obj);
      if includes.Failure? {
        return Failure(includes.error);
      }
      if includes.value.Some? {
        var config := new Configuration(includes.value.value);
        return Success(config);
      }
      return Failure(NoIncludes);
    }

    /**
     * `Configuration.accept` with the validation visitor: every rule is left with exactly
     * the excludes that start with one of its include paths, in their original order.
     */
    method AcceptValidation(visitor: ValidationVisitor)
      requires Valid()
      modifies visitor, includes
      ensures forall k :: 0 <= k < |includes| ==>
        includes[k].excludes == Pruned(old(includes[k].excludes), includes[k].includePaths) &&
        includes[k].isActive == old(includes[k].isActive)
    {
      for i := 0 to |includes|
        invariant forall k :: 0 <= k < i ==> includes[k].excludes == Pruned(old(includes[k].excludes), includes[k].includePaths)
        invariant forall k :: i <= k < |includes| ==> includes[k].excludes == old(includes[k].excludes)
        invariant forall k :: 0 <= k < |includes| ==> includes[k].isActive == old(includes[k].isActive)
      {
        includes[i].AcceptValidation(visitor);
      }
    }

    /**
     * `Configuration.accept` with the drive visitor: every flag is recomputed from its drive,
     * and the visitor collects, in traversal order, the rules that rose and those that fell.
     */
    method AcceptUpdateActiveDrives(visitor: UpdateActiveDrivesVisitor, host: Host)
      requires Valid()
      modifies visitor, includes`isActive
      ensures forall k :: 0 <= k < |includes| ==> includes[k].isActive == DriveExists(host, includes[k].targetPath)
      ensures visitor.activatedRules ==
        old(visitor.activatedRules) + Flipped(includes, old(ActiveFlags(includes)), DriveFlags(includes, host), true)
      ensures visitor.deactivatedRules ==
        old(visitor.deactivatedRules) + Flipped(includes, old(ActiveFlags(includes)), DriveFlags(includes, host), false)
    {
      ghost var was := ActiveFlags(includes);
      ghost var now := DriveFlags(includes, host);
      VisitAll(visitor, host, was, now, Positions(includes));
      FlippedUpToAll(includes, was, now, true);
      FlippedUpToAll(includes, was, now, false);
    }

    /** The loop of that traversal, given the flags before and after and each rule's position. */
    method VisitAll(visitor: UpdateActiveDrivesVisitor, host: Host, ghost was: seq<bool>, ghost now: seq<bool>, ghost pos: map<Include, nat>)
      requires |was| == |now| == |includes|
      requires forall k :: 0 <= k < |includes| ==> includes[k] in pos && pos[includes[k]] == k
      requires forall k :: 0 <= k < |includes| ==> was[k] == includes[k].isActive && now[k] == DriveExists(host, includes[k].targetPath)
      modifies visitor, includes`isActive
      ensures forall k :: 0 <= k < |includes| ==> includes[k].isActive == now[k]
      ensures visitor.activatedRules == old(visitor.activatedRules) + FlippedUpTo(includes, was, now, true, |includes|)
      ensures visitor.deactivatedRules == old(visitor.deactivatedRules) + FlippedUpTo(includes, was, now, false, |includes|)
    {
      for i := 0 to |includes|
        invariant forall k :: 0 <= k < |includes| ==> includes[k].isActive == if k < i then now[k] else was[k]
        invariant visitor.activatedRules == old(visitor.activatedRules) + FlippedUpTo(includes, was, now, true, i)
        invariant visitor.deactivatedRules == old(visitor.deactivatedRules) + FlippedUpTo(includes, was, now, false, i)
      {
        label before:
        VisitRuleAt(visitor, host, includes[i], was, now, i, old(visitor.activatedRules), old(visitor.deactivatedRules));
        forall k | 0 <= k < |includes| && k != i
          ensures includes[k].isActive == old@before(includes[k].isActive)
        {
          assert pos[includes[k]] != pos[includes[i]];
        }
      }
    }

    /** One iteration of that loop: the visit of the `i`-th rule. */
    method VisitRuleAt(visitor: UpdateActiveDrivesVisitor, host: Host, rule: Include, ghost was: seq<bool>, ghost now: seq<bool>, i: nat,
                       ghost activatedBase: seq<Include>, ghost deactivatedBase: seq<Include>)
      requires |was| == |now| == |includes| && i < |includes| && rule == includes[i]
      requires includes[i].isActive == was[i] && now[i] == DriveExists(host, includes[i].targetPath)
      requires visitor.activatedRules == activatedBase + FlippedUpTo(includes, was, now, true, i)
      requires visitor.deactivatedRules == deactivatedBase + FlippedUpTo(includes, was, now, false, i)
      modifies visitor, rule`isActive
      ensures includes[i].isActive == now[i]
      ensures visitor.activatedRules == activatedBase + FlippedUpTo(includes, was, now, true, i + 1)
      ensures visitor.deactivatedRules == deactivatedBase + FlippedUpTo(includes, was, now, false, i + 1)
    {
      rule.AcceptUpdateActiveDrives(visitor, host);
    }
  }

  /** One iteration of the loop of `parseIncludes`. */
  lemma DecodeItemsStep(host: Host, items: seq<Option<IncludeObj>>, i: nat)
    requires i < |items| && DecodeItems(host, items[..i]).Success?
    ensures DecodeItems(host, items[..i + 1]) ==
      if items[i].None? || !items[i].value.Truthy() then DecodeItems(host, items[..i])
      else if DecodeRule(host, items[i].value).Failure? then Failure(DecodeRule(host, items[i].value).error)
      else Success(DecodeItems(host, items[..i]).value + [DecodeRule(host, items[i].value).value])
  {
    assert items[..i + 1][..i] == items[..i];
  }

  /** Once a prefix of the items fails, the whole list fails with the same error. */
  lemma {:induction false} DecodeItemsFailurePersists(host: Host, items: seq<Option<IncludeObj>>, n: nat)
    requires n <= |items| && DecodeItems(host, items[..n]).Failure?
    ensures DecodeItems(host, items) == DecodeItems(host, items[..n])
    decreases |items| - n
  {
    if n < |items| {
      assert items[..n + 1][..n] == items[..n];
      DecodeItemsFailurePersists(host, items, n + 1);
    } else {
      assert items[..n] == items;
    }
  }

  // ----- validation visitor -----

  /** The exclude starts (as a string) with one of the rule's include paths. */
  predicate HasIncludePrefix(exclude: Path, includePaths: seq<Path>) {
    exists j :: 0 <= j < |includePaths| && StartsWith(exclude, includePaths[j])
  }

  /** The excludes that survive validation, in order. */
  function Pruned(excludes: seq<Path>, includePaths: seq<Path>): (r: seq<Path>)
    ensures |r| <= |excludes|
  {
    if excludes == [] then []
    else
      var last := excludes[|excludes| - 1];
      Pruned(excludes[..|excludes| - 1], includePaths) + (if HasIncludePrefix(last, includePaths) then [last] else [])
  }

  /** Pruning distributes over concatenation, so the survivors keep their order. */
  lemma {:induction false} PrunedConcat(a: seq<Path>, b: seq<Path>, includePaths: seq<Path>)
    ensures Pruned(a + b, includePaths) == Pruned(a, includePaths) + Pruned(b, includePaths)
    decreases |b|
  {
    if b == [] {
      assert a + b == a;
    } else {
      var n := |b| - 1;
      PrunedConcat(a, b[..n], includePaths);
      assert (a + b)[..|a + b| - 1] == a + b[..n];
    }
  }

  /** What validation keeps: an entry survives exactly when it starts with an include path. */
  lemma {:induction false} PrunedMembership(a: seq<Path>, includePaths: seq<Path>)
    ensures forall e :: e in Pruned(a, includePaths) <==> e in a && HasIncludePrefix(e, includePaths)
    decreases |a|
  {
    if a != [] {
      var n := |a| - 1;
      PrunedMembership(a[..n], includePaths);
      assert a == a[..n] + [a[n]];
    }
  }

  /** One step of the traversal over the copy of the excludes. */
  lemma PruneStep(snapshot: seq<Path>, k: nat, includePaths: seq<Path>)
    requires k < |snapshot|
    ensures snapshot[k] in Pruned(snapshot[..k], includePaths) + snapshot[k..]
    ensures
      var current, e := Pruned(snapshot[..k], includePaths) + snapshot[k..], snapshot[k];
      Pruned(snapshot[..k + 1], includePaths) + snapshot[k + 1..] ==
        if HasIncludePrefix(e, includePaths) then current else RemoveFirst(current, e)
  {
    var done, e, rest := Pruned(snapshot[..k], includePaths), snapshot[k], snapshot[k + 1..];
    PrunedSnoc(snapshot, k, includePaths);
    SuffixSplit(done, snapshot, k);
    if !HasIncludePrefix(e, includePaths) {
      PrunedMembership(snapshot[..k], includePaths);
      RemoveFirstAfterAbsent(done, e, rest);
    }
  }

  lemma PrunedSnoc(s: seq<Path>, k: nat, includePaths: seq<Path>)
    requires k < |s|
    ensures Pruned(s[..k + 1], includePaths) == Pruned(s[..k], includePaths) + (if HasIncludePrefix(s[k], includePaths) then [s[k]] else [])
  {
    assert s[..k + 1][..k] == s[..k];
  }

  /** `ConfigurationValidationVisitor`: remembers the rule being visited and checks its excludes. */
  class ValidationVisitor {
    var parentInclude: Include?

    constructor()
      ensures parentInclude == null
    {
      parentInclude := null;
    }

    method VisitInclude(rule: Include)
      modifies this
      ensures parentInclude == rule
    {
      parentInclude := rule;
    }

    /**
     * Drops (the first occurrence of) an exclude that starts with none of the parent rule's
     * include paths; `list.remove` needs that occurrence to exist.
     */
    method VisitExclude(exclude: Path)
      requires parentInclude != null
      requires !HasIncludePrefix(exclude, parentInclude.includePaths) ==> exclude in parentInclude.excludes
      modifies parentInclude`excludes
      ensures parentInclude == old(parentInclude)
      ensures parentInclude.excludes ==
        if HasIncludePrefix(exclude, parentInclude.includePaths) then old(parentInclude.excludes)
        else RemoveFirst(old(parentInclude.excludes), exclude)
    {
      var isSub := false;
      var paths := parentInclude.includePaths;
      for i := 0 to |paths|
        invariant isSub <==> exists j :: 0 <= j < i && StartsWith(exclude, paths[j])
      {
        if StartsWith(exclude, paths[i]) {
          isSub := true;
        }
      }
      if !isSub {
        parentInclude.excludes := RemoveFirst(parentInclude.excludes, exclude);
      }
    }
  }

  // ----- drive visitor -----

  /** `os.path.exists(splitdrive(targetPath)[0])`. */
  predicate DriveExists(host: Host, targetPath: Path) {
    PathExists(host, Drive(targetPath))
  }

  /** The rules, in order, whose flag changed from `was` to `now` and ended at `to`. */
  function Flipped<T>(rules: seq<T>, was: seq<bool>, now: seq<bool>, to: bool): (r: seq<T>)
    requires |rules| == |was| == |now|
    ensures |r| <= |rules|
  {
    if rules == [] then []
    else
      var n := |rules| - 1;
      Flipped(rules[..n], was[..n], now[..n], to) + (if was[n] != now[n] && now[n] == to then [rules[n]] else [])
  }

  /** `Flipped` over the first `n` rules, counted by position. */
  function FlippedUpTo<T>(rules: seq<T>, was: seq<bool>, now: seq<bool>, to: bool, n: nat): seq<T>
    requires |rules| == |was| == |now| && n <= |rules|
  {
    if n == 0 then []
    else FlippedUpTo(rules, was, now, to, n - 1) + (if was[n - 1] != now[n - 1] && now[n - 1] == to then [rules[n - 1]] else [])
  }

  lemma {:induction false} FlippedUpToPrefix<T>(rules: seq<T>, was: seq<bool>, now: seq<bool>, to: bool, n: nat)
    requires |rules| == |was| == |now| && n <= |rules|
    ensures FlippedUpTo(rules, was, now, to, n) == Flipped(rules[..n], was[..n], now[..n], to)
    decreases n
  {
    if n > 0 {
      FlippedUpToPrefix(rules, was, now, to, n - 1);
      assert rules[..n][..n - 1] == rules[..n - 1];
      assert was[..n][..n - 1] == was[..n - 1];
      assert now[..n][..n - 1] == now[..n - 1];
    }
  }

  /** Counting all the rules by position gives `Flipped` itself. */
  lemma FlippedUpToAll<T>(rules: seq<T>, was: seq<bool>, now: seq<bool>, to: bool)
    requires |rules| == |was| == |now|
    ensures FlippedUpTo(rules, was, now, to, |rules|) == Flipped(rules, was, now, to)
  {
    FlippedUpToPrefix(rules, was, now, to, |rules|);
    assert rules[..|rules|] == rules;
    assert was[..|rules|] == was;
    assert now[..|rules|] == now;
  }

  /** A rule is collected exactly when its flag moved to `to`. */
  lemma {:induction false} FlippedMembership<T>(rules: seq<T>, was: seq<bool>, now: seq<bool>, to: bool, x: T)
    requires |rules| == |was| == |now|
    ensures x in Flipped(rules, was, now, to) <==>
      exists k :: 0 <= k < |rules| && rules[k] == x && was[k] != now[k] && now[k] == to
    decreases |rules|
  {
    if rules != [] {
      var n := |rules| - 1;
      FlippedMembership(rules[..n], was[..n], now[..n], to, x);
      if exists k :: 0 <= k < n && rules[..n][k] == x && was[..n][k] != now[..n][k] && now[..n][k] == to {
        var k :| 0 <= k < n && rules[..n][k] == x && was[..n][k] != now[..n][k] && now[..n][k] == to;
        assert rules[k] == x && was[k] != now[k] && now[k] == to;
      }
      if exists k :: 0 <= k < |rules| && rules[k] == x && was[k] != now[k] && now[k] == to {
        var k :| 0 <= k < |rules| && rules[k] == x && was[k] != now[k] && now[k] == to;
        if k < n {
          assert rules[..n][k] == x && was[..n][k] != now[..n][k] && now[..n][k] == to;
        }
      }
    }
  }

  /** For distinct rules, no rule is both activated and deactivated. */
  lemma FlippedExclusive<T>(rules: seq<T>, was: seq<bool>, now: seq<bool>, x: T)
    requires |rules| == |was| == |now|
    requires forall i, j :: 0 <= i < j < |rules| ==> rules[i] != rules[j]
    ensures !(x in Flipped(rules, was, now, true) && x in Flipped(rules, was, now, false))
  {
    FlippedMembership(rules, was, now, true, x);
    FlippedMembership(rules, was, now, false, x);
  }

  /** For distinct rules, a rule whose flag did not change is in neither list. */
  lemma FlippedUnchanged<T>(rules: seq<T>, was: seq<bool>, now: seq<bool>, k: nat)
    requires |rules| == |was| == |now|
    requires forall i, j :: 0 <= i < j < |rules| ==> rules[i] != rules[j]
    requires k < |rules| && was[k] == now[k]
    ensures rules[k] !in Flipped(rules, was, now, true) && rules[k] !in Flipped(rules, was, now, false)
  {
    FlippedMembership(rules, was, now, true, rules[k]);
    FlippedMembership(rules, was, now, false, rules[k]);
  }

  /** `ConfigurationUpdateActiveDrivesVisitor`. */
  class UpdateActiveDrivesVisitor {
    var activatedRules: seq<Include>
    var deactivatedRules: seq<Include>

    constructor()
      ensures activatedRules == [] && deactivatedRules == []
    {
      activatedRules := [];
      deactivatedRules := [];
    }

    /** Recomputes the rule's flag from its drive and records a change in the matching list. */
    method VisitInclude(rule: Include, host: Host)
      modifies this, rule`isActive
      ensures rule.isActive == DriveExists(host, rule.targetPath)
      ensures activatedRules == old(activatedRules) + (if !old(rule.isActive) && rule.isActive then [rule] else [])
      ensures deactivatedRules == old(deactivatedRules) + (if old(rule.isActive) && !rule.isActive then [rule] else [])
    {
      var wasActive := rule.isActive;
      var drive := Drive(rule.targetPath);
      rule.isActive := PathExists(host, drive);
      if wasActive != rule.isActive {
        if rule.isActive {
          activatedRules := activatedRules + [rule];
        } else {
          deactivatedRules := deactivatedRules + [rule];
        }
      }
    }
  }
}
