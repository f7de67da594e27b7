/**
 * The `seed_groups` management command: the configured groups are created
 * when missing and given their configured permissions, adding only those not
 * already held, with `--reset` clearing each configured group first.
 *
 * The group configuration (a constant table in the command) is a parameter:
 * a list of group names, each with its permission strings.
 */
module SeedGroups {

  /** A permission, identified by its content type's app label and its codename. */
  datatype PermKey = PermKey(appLabel: string, codename: string)

  function IndexOfDot(s: string): (r: nat)
    requires '.' in s
    ensures r < |s| && s[r] == '.' && '.' !in s[..r]
  {
    if s[0] == '.' then 0
    else
      assert '.' in s[1..] by {
        var k :| 0 <= k < |s| && s[k] == '.';
        assert s[1..][k - 1] == '.';
      }
      var r := 1 + IndexOfDot(s[1..]);
      assert s[..r] == [s[0]] + s[1..][..r - 1];
      r
  }

  /** A permission string the command can split: no second "." after its first. */
  predicate AtMostOneDot(s: string)
    decreases |s|
  {
    s == [] || (if s[0] == '.' then '.' !in s[1..] else AtMostOneDot(s[1..]))
  }

  /** In such a string nothing after the first dot is a dot. */
  lemma {:induction false} NoDotAfterFirst(s: string)
    requires AtMostOneDot(s) && '.' in s
    ensures '.' !in s[IndexOfDot(s) + 1..]
    decreases |s|
  {
    if s[0] != '.' {
      var t := s[1..];
      assert '.' in t by {
        var k :| 0 <= k < |s| && s[k] == '.';
        assert t[k - 1] == '.';
      }
      NoDotAfterFirst(t);
      assert s[IndexOfDot(s) + 1..] == t[IndexOfDot(t) + 1..];
    }
  }

  /** "app_label.codename" splits at the dot; a string without one is a codename of the core app. */
  function ParsePermission(s: string): (r: PermKey)
    requires AtMostOneDot(s)
  {
    if '.' in s then
      var i := IndexOfDot(s);
      PermKey(s[..i], s[i + 1..])
    else PermKey("core", s)
  }

  /** Parsing takes the string apart: the two parts joined by "." give it back, and neither holds a dot. */
  lemma ParseRoundTrip(s: string)
    requires AtMostOneDot(s)
    ensures '.' in s ==> (ParsePermission(s).appLabel + "." + ParsePermission(s).codename == s
      && '.' !in ParsePermission(s).appLabel && '.' !in ParsePermission(s).codename)
    ensures '.' !in s ==> ParsePermission(s) == PermKey("core", s)
  {
    if '.' in s {
      var i := IndexOfDot(s);
      assert s == s[..i] + "." + s[i + 1..];
      NoDotAfterFirst(s);
    }
  }

  predicate WellFormed(perms: seq<string>) {
    forall i :: 0 <= i < |perms| ==> AtMostOneDot(perms[i])
  }

  /** The permissions a group's strings name, in configuration order. */
  function Parsed(perms: seq<string>): (r: seq<PermKey>)
    requires WellFormed(perms)
    ensures |r| == |perms| && forall i :: 0 <= i < |perms| ==> r[i] == ParsePermission(perms[i])
    decreases |perms|
  {
    if perms == [] then []
    else Parsed(perms[..|perms| - 1]) + [ParsePermission(perms[|perms| - 1])]
  }

  /** The existing permissions among those named. */
  function WantedKeys(keys: seq<PermKey>, available: set<PermKey>): (r: set<PermKey>)
    ensures r <= available
    decreases |keys|
  {
    if keys == [] then {}
    else
      var last := keys[|keys| - 1];
      WantedKeys(keys[..|keys| - 1], available) + (if last in available then {last} else {})
  }

  /** The named permissions that do not exist, in order: each one a warning. */
  function MissingKeys(keys: seq<PermKey>, available: set<PermKey>): (r: seq<PermKey>)
    ensures forall q :: q in r ==> q !in available
    decreases |keys|
  {
    if keys == [] then []
    else
      var last := keys[|keys| - 1];
      MissingKeys(keys[..|keys| - 1], available) + (if last in available then [] else [last])
  }

  /** A permission is wanted exactly when it is named and exists. */
  lemma {:induction false} WantedKeysMembers(keys: seq<PermKey>, available: set<PermKey>)
    ensures forall q :: q in WantedKeys(keys, available) <==> q in keys && q in available
    decreases |keys|
  {
    if keys != [] {
      WantedKeysMembers(keys[..|keys| - 1], available);
      assert keys == keys[..|keys| - 1] + [keys[|keys| - 1]];
    }
  }

  /** A permission is reported missing exactly when it is named and does not exist. */
  lemma {:induction false} MissingKeysMembers(keys: seq<PermKey>, available: set<PermKey>)
    ensures forall q :: q in MissingKeys(keys, available) <==> q in keys && q !in available
    decreases |keys|
  {
    if keys != [] {
      MissingKeysMembers(keys[..|keys| - 1], available);
      assert keys == keys[..|keys| - 1] + [keys[|keys| - 1]];
    }
  }

  /** The existing permissions among those a group is configured with. */
  function Wanted(perms: seq<string>, available: set<PermKey>): (r: set<PermKey>)
    requires WellFormed(perms)
    ensures forall q :: q in r <==> q in Parsed(perms) && q in available
  {
    WantedKeysMembers(Parsed(perms), available);
    WantedKeys(Parsed(perms), available)
  }

  /** The configured permissions that do not exist, in configuration order. */
  function Missing(perms: seq<string>, available: set<PermKey>): (r: seq<PermKey>)
    requires WellFormed(perms)
    ensures forall q :: q in r <==> q in Parsed(perms) && q !in available
  {
    MissingKeysMembers(Parsed(perms), available);
    MissingKeys(Parsed(perms), available)
  }

  type Groups = map<string, set<PermKey>>

  /** The group configuration as written: each group name with its permission strings. */
  type Config = seq<(string, seq<string>)>

  /** The group configuration with its permission strings parsed. */
  type KeyConfig = seq<(string, seq<PermKey>)>

  function Names<T>(config: seq<(string, T)>): set<string> {
    set i | 0 <= i < |config| :: config[i].0
  }

  predicate DistinctNames<T>(config: seq<(string, T)>) {
    forall i, j :: 0 <= i < j < |config| ==> config[i].0 != config[j].0
  }

  /** The group configuration: a dictionary, so distinct group names, and each permission string splittable. */
  predicate ValidConfig(config: Config) {
    DistinctNames(config) && forall i :: 0 <= i < |config| ==> WellFormed(config[i].1)
  }

  /** The configuration with each group's permission strings parsed. */
  function ParseConfig(config: Config): (r: KeyConfig)
    requires ValidConfig(config)
    ensures |r| == |config|
  {
    seq(|config|, i requires 0 <= i < |config| => (config[i].0, Parsed(config[i].1)))
  }

  /** Parsing the configuration keeps its group names, in order, and parses each group's strings. */
  lemma ParseConfigEntries(config: Config)
    requires ValidConfig(config)
    ensures forall i :: 0 <= i < |config| ==> ParseConfig(config)[i] == (config[i].0, Parsed(config[i].1))
    ensures DistinctNames(ParseConfig(config)) && Names(ParseConfig(config)) == Names(config)
  {
    var r := ParseConfig(config);
    assert Names(r) == Names(config) by {
      forall n | n in Names(config) ensures n in Names(r) {
        var i :| 0 <= i < |config| && config[i].0 == n;
        assert r[i].0 == n;
      }
    }
  }

  /** The permissions a configured group starts its permission loop with. */
  function Base(groups: Groups, name: string, reset: bool): set<PermKey> {
    if reset || name !in groups then {} else groups[name]
  }

  /** The command's run: the groups after it, and how many permissions it adds (`permissions_assigned`). */
  function Run(groups: Groups, config: KeyConfig, available: set<PermKey>, reset: bool): (Groups, nat)
    decreases |config|
  {
    if config == [] then (groups, 0)
    else
      var sofar := Run(groups, config[..|config| - 1], available, reset);
      var name := config[|config| - 1].0;
      var wanted := WantedKeys(config[|config| - 1].1, available);
      var base := Base(sofar.0, name, reset);
      (sofar.0[name := base + wanted], sofar.1 + |wanted - base|)
  }

  /** The groups after the command. */
  function Seeded(groups: Groups, config: KeyConfig, available: set<PermKey>, reset: bool): Groups {
    Run(groups, config, available, reset).0
  }

  /** How many permissions the run adds (`permissions_assigned`). */
  function Assigned(groups: Groups, config: KeyConfig, available: set<PermKey>, reset: bool): nat {
    Run(groups, config, available, reset).1
  }

  /** How many configured groups the run creates: those not present when their turn comes. */
  function Created(groups: Groups, config: KeyConfig, available: set<PermKey>, reset: bool): nat
    decreases |config|
  {
    if config == [] then 0
    else
      var init := config[..|config| - 1];
      Created(groups, init, available, reset) + (if config[|config| - 1].0 in Seeded(groups, init, available, reset) then 0 else 1)
  }

  /** The run creates exactly the configured groups that did not exist before it. */
  lemma {:induction false} CreatedCount(groups: Groups, config: KeyConfig, available: set<PermKey>, reset: bool)
    ensures Created(groups, config, available, reset) == |Names(config) - groups.Keys|
    decreases |config|
  {
    if config == [] {
      assert Names(config) == {};
    } else {
      var init := config[..|config| - 1];
      CreatedCount(groups, init, available, reset);
      CreatedLast(groups, config, available, reset);
    }
  }

  /** The last configured group adds one to the created count exactly when its name is new to the configuration and to the groups. */
  lemma CreatedLast(groups: Groups, config: KeyConfig, available: set<PermKey>, reset: bool)
    requires config != []
    ensures var init := config[..|config| - 1];
      |Names(config) - groups.Keys| - |Names(init) - groups.Keys|
      == Created(groups, config, available, reset) - Created(groups, init, available, reset)
  {
    var k := |config| - 1;
    var init := config[..k];
    var name := config[k].0;
    NamesSnoc(config, k);
    assert config[..k + 1] == config;
    if name in Names(init) {
      SeededConfigured(groups, init, available, reset, name);
      assert Names(config) == Names(init);
      assert Created(groups, config, available, reset) == Created(groups, init, available, reset);
    } else {
      SeededUnconfigured(groups, init, available, reset, name);
      FreshNameCount(Names(init), name, groups.Keys);
      assert Names(config) == Names(init) + {name};
    }
  }

  /** Each configured group ends with its base and its wanted permissions. */
  lemma {:induction false} SeededGroups(groups: Groups, config: KeyConfig, available: set<PermKey>, reset: bool, i: nat)
    requires DistinctNames(config) && i < |config|
    ensures config[i].0 in Seeded(groups, config, available, reset)
    ensures Seeded(groups, config, available, reset)[config[i].0]
      == Base(groups, config[i].0, reset) + WantedKeys(config[i].1, available)
    decreases |config|
  {
    var init := config[..|config| - 1];
    if i < |config| - 1 {
      EarlierGroup(config, i);
      SeededGroups(groups, init, available, reset, i);
    } else {
      LastGroup(config);
      SeededUnconfigured(groups, init, available, reset, config[i].0);
    }
  }

  /** A group configured before the last one is not the last one, and its entry is the same in the shorter configuration. */
  lemma EarlierGroup(config: KeyConfig, i: nat)
    requires DistinctNames(config) && i < |config| - 1
    ensures DistinctNames(config[..|config| - 1])
    ensures config[..|config| - 1][i] == config[i] && config[i].0 != config[|config| - 1].0
  {
  }

  /** The last configured group is named nowhere earlier. */
  lemma LastGroup(config: KeyConfig)
    requires DistinctNames(config) && config != []
    ensures config[|config| - 1].0 !in Names(config[..|config| - 1])
  {
    var init := config[..|config| - 1];
    forall j | 0 <= j < |init| ensures init[j].0 != config[|config| - 1].0 {
      assert init[j] == config[j];
    }
  }

  /** A group the configuration does not name is untouched: present after the run exactly when it was before, with the same permissions. */
  lemma {:induction false} SeededUnconfigured(groups: Groups, config: KeyConfig, available: set<PermKey>, reset: bool,
                                              name: string)
    requires name !in Names(config)
    ensures name in Seeded(groups, config, available, reset) <==> name in groups
    ensures name in groups ==> Seeded(groups, config, available, reset)[name] == groups[name]
    decreases |config|
  {
    if config != [] {
      var init := config[..|config| - 1];
      assert Names(init) <= Names(config) by {
        forall n | n in Names(init) ensures n in Names(config) {
          var k :| 0 <= k < |init| && init[k].0 == n;
          assert config[k] == init[k];
        }
      }
      assert config[|config| - 1].0 in Names(config);
      SeededUnconfigured(groups, init, available, reset, name);
    }
  }

  /** Every configured group exists after the run. */
  lemma {:induction false} SeededConfigured(groups: Groups, config: KeyConfig, available: set<PermKey>, reset: bool,
                                            name: string)
    requires name in Names(config)
    ensures name in Seeded(groups, config, available, reset)
    decreases |config|
  {
    var init := config[..|config| - 1];
    if config[|config| - 1].0 != name {
      var i :| 0 <= i < |config| && config[i].0 == name;
      assert init[i] == config[i];
      SeededConfigured(groups, init, available, reset, name);
    }
  }

  /** After `--reset`, every configured group holds exactly its existing configured permissions. */
  lemma ResetLeavesExactlyConfigured(groups: Groups, config: KeyConfig, available: set<PermKey>, i: nat)
    requires DistinctNames(config) && i < |config|
    ensures config[i].0 in Seeded(groups, config, available, true)
    ensures Seeded(groups, config, available, true)[config[i].0] == WantedKeys(config[i].1, available)
  {
    SeededGroups(groups, config, available, true, i);
  }

  /** A second run without `--reset` changes nothing. */
  lemma RerunChangesNothing(groups: Groups, config: KeyConfig, available: set<PermKey>, reset: bool)
    requires DistinctNames(config)
    ensures Seeded(Seeded(groups, config, available, reset), config, available, false)
      == Seeded(groups, config, available, reset)
  {
    var once := Seeded(groups, config, available, reset);
    var twice := Seeded(once, config, available, false);
    forall name
      ensures name in twice <==> name in once
      ensures name in twice ==> twice[name] == once[name]
    {
      if name in Names(config) {
        var i :| 0 <= i < |config| && config[i].0 == name;
        SeededGroups(groups, config, available, reset, i);
        SeededGroups(once, config, available, false, i);
      } else {
        SeededUnconfigured(once, config, available, false, name);
      }
    }
  }

  /** A run without `--reset` over groups that already hold their wanted permissions assigns no permission. */
  lemma {:induction false} RerunAssignsNothing(config: KeyConfig, available: set<PermKey>, once: Groups)
    requires DistinctNames(config)
    requires forall i :: 0 <= i < |config| ==> config[i].0 in once && WantedKeys(config[i].1, available) <= once[config[i].0]
    ensures Assigned(once, config, available, false) == 0
    decreases |config|
  {
    if config != [] {
      var init := config[..|config| - 1];
      var last := |config| - 1;
      forall i | 0 <= i < |init|
        ensures init[i].0 in once && WantedKeys(init[i].1, available) <= once[init[i].0]
      {
        assert init[i] == config[i];
      }
      RerunAssignsNothing(init, available, once);
      LastGroup(config);
      SeededUnconfigured(once, init, available, false, config[last].0);
      assert WantedKeys(config[last].1, available) - Base(Seeded(once, init, available, false), config[last].0, false) == {};
    }
  }

  /** The first run's groups satisfy the rerun lemma's premise, so a second run assigns nothing. */
  lemma SecondRunAssignsNothing(groups: Groups, config: KeyConfig, available: set<PermKey>, reset: bool)
    requires DistinctNames(config)
    ensures Assigned(Seeded(groups, config, available, reset), config, available, false) == 0
  {
    var once := Seeded(groups, config, available, reset);
    forall i | 0 <= i < |config|
      ensures config[i].0 in once && WantedKeys(config[i].1, available) <= once[config[i].0]
    {
      SeededGroups(groups, config, available, reset, i);
    }
    RerunAssignsNothing(config, available, once);
  }

  /**
   * One group's permission loop: each string is looked up; an existing
   * permission the group lacks is added and counted, one that does not exist
   * is reported.
   */
  method GrantPermissions(base: set<PermKey>, perms: seq<string>, available: set<PermKey>)
    returns (held: set<PermKey>, granted: nat, missing: seq<PermKey>)
    requires WellFormed(perms)
    ensures held == base + Wanted(perms, available)
    ensures granted == |Wanted(perms, available) - base|
    ensures missing == Missing(perms, available)
  {
    held, granted, missing := base, 0, [];
    ghost var keys := Parsed(perms);
    var i := 0;
    GrantStart(base, keys, available);
    while i < |perms|
      invariant 0 <= i <= |perms|
      invariant GrantSoFar(base, keys, available, i, held, granted, missing)
    {
      var perm := ParsePermission(perms[i]);
      assert perm == keys[i];
      GrantStep(base, keys, available, i, held, granted, missing);
      if perm in available {
        if perm !in held {
          held := held + {perm};
          granted := granted + 1;
        }
      } else {
        missing := missing + [perm];
      }
      i := i + 1;
    }
    assert keys[..i] == keys;
  }

  /** The permission loop after `i` permissions: what the first `i` of them give. */
  ghost predicate GrantSoFar(base: set<PermKey>, keys: seq<PermKey>, available: set<PermKey>, i: nat,
                             held: set<PermKey>, granted: nat, missing: seq<PermKey>)
    requires i <= |keys|
  {
    held == base + WantedKeys(keys[..i], available)
    && granted == |WantedKeys(keys[..i], available) - base|
    && missing == MissingKeys(keys[..i], available)
  }

  lemma GrantStart(base: set<PermKey>, keys: seq<PermKey>, available: set<PermKey>)
    ensures GrantSoFar(base, keys, available, 0, base, 0, [])
  {
    assert keys[..0] == [];
    assert base + {} == base;
  }

  /** One turn of the permission loop keeps its invariant, in each of its three branches. */
  lemma GrantStep(base: set<PermKey>, keys: seq<PermKey>, available: set<PermKey>, i: nat,
                  held: set<PermKey>, granted: nat, missing: seq<PermKey>)
    requires i < |keys| && GrantSoFar(base, keys, available, i, held, granted, missing)
    ensures keys[i] in available && keys[i] !in held
      ==> GrantSoFar(base, keys, available, i + 1, held + {keys[i]}, granted + 1, missing)
    ensures keys[i] in available && keys[i] in held
      ==> GrantSoFar(base, keys, available, i + 1, held, granted, missing)
    ensures keys[i] !in available
      ==> GrantSoFar(base, keys, available, i + 1, held, granted, missing + [keys[i]])
  {
    PrefixStep(keys, i, available);
    var sofar := WantedKeys(keys[..i], available);
    CountStep(sofar, base, keys[i]);
    if keys[i] in available && keys[i] in held {
      assert sofar + {keys[i]} + base == held;
    }
  }

  /** The `auth_group` table with each group's permission set. */
  class GroupStore {
    var groups: map<string, set<PermKey>>

    constructor (groups: map<string, set<PermKey>>)
      ensures this.groups == groups
    {
      this.groups := groups;
    }

    /** One group's permissions given out: its permission set becomes what the permission loop leaves. */
    method AssignPermissions(name: string, perms: seq<string>, available: set<PermKey>) returns (granted: nat, missing: seq<PermKey>)
      requires WellFormed(perms) && name in groups
      modifies this
      ensures groups == old(groups)[name := old(groups)[name] + Wanted(perms, available)]
      ensures granted == |Wanted(perms, available) - old(groups)[name]|
      ensures missing == Missing(perms, available)
    {
      var held;
      held, granted, missing := GrantPermissions(groups[name], perms, available);
      groups := groups[name := held];
    }

    /** `get_or_create` by name, then `permissions.clear()` under `--reset`. */
    method GetOrCreate(name: string, reset: bool) returns (created: bool)
      modifies this
      ensures groups == old(groups)[name := Base(old(groups), name, reset)]
      ensures created <==> name !in old(groups)
    {
      created := name !in groups;
      if created {
        groups := groups[name := {}];
      }
      if reset {
        groups := groups[name := {}];
      }
    }

    /** One configured group: fetched or created, cleared under `--reset`, then given its permissions. */
    method SeedGroup(name: string, perms: seq<string>, available: set<PermKey>, reset: bool)
      returns (isNew: bool, added: nat)
      requires WellFormed(perms)
      modifies this
      ensures groups == old(groups)[name := Base(old(groups), name, reset) + Wanted(perms, available)]
      ensures isNew <==> name !in old(groups)
      ensures added == |Wanted(perms, available) - Base(old(groups), name, reset)|
    {
      isNew := GetOrCreate(name, reset);
      assert groups[name] == Base(old(groups), name, reset);
      var missing;
      added, missing := AssignPermissions(name, perms, available);
    }

    /** One turn of the group loop: the `k`-th configured group seeded, and the counters updated. */
    method SeedNext(config: Config, k: nat, available: set<PermKey>, reset: bool, ghost start: Groups,
                    ghost parsed: KeyConfig, created: nat, updated: nat, granted: nat)
      returns (created': nat, updated': nat, granted': nat)
      requires ValidConfig(config) && k < |config| && parsed == ParseConfig(config)
      requires SeedProgress(start, parsed, available, reset, k, groups, created, updated, granted)
      modifies this
      ensures SeedProgress(start, parsed, available, reset, k + 1, groups, created', updated', granted')
    {
      var (name, perms) := config[k];
      ghost var before := groups;
      var isNew, added := SeedGroup(name, perms, available, reset);
      if isNew {
        created', updated' := created + 1, updated;
      } else {
        created', updated' := created, updated + 1;
      }
      granted' := granted + added;
      ParseConfigEntries(config);
      assert parsed[k] == (name, Parsed(perms));
      SeedTurn(start, parsed, available, reset, k, (created, updated, granted), before, groups, added, isNew,
               created', updated', granted');
    }

    /**
     * `handle`: each configured group is fetched or created (counted as
     * created or already existing), cleared under `--reset`, then given its
     * permissions.
     */
    method Seed(config: Config, available: set<PermKey>, reset: bool)
      returns (created: nat, updated: nat, granted: nat)
      requires ValidConfig(config)
      modifies this
      ensures groups == Seeded(old(groups), ParseConfig(config), available, reset)
      ensures created + updated == |config|
      ensures created == |Names(config) - old(groups).Keys|
      ensures granted == Assigned(old(groups), ParseConfig(config), available, reset)
    {
      created, updated, granted := 0, 0, 0;
      ghost var start := groups;
      ghost var parsed := ParseConfig(config);
      var k := 0;
      SeedStart(start, parsed, available, reset);
      while k < |config|
        invariant 0 <= k <= |config|
        invariant SeedProgress(start, parsed, available, reset, k, groups, created, updated, granted)
      {
        created, updated, granted := SeedNext(config, k, available, reset, start, parsed, created, updated, granted);
        k := k + 1;
      }
      SeedDone(start, parsed, available, reset, groups, created, updated, granted);
      CreatedCount(start, parsed, available, reset);
      ParseConfigEntries(config);
    }
  }

  /** The group loop after `k` groups: the groups and the counters are those of the first `k` configured groups. */
  ghost predicate SeedProgress(start: Groups, config: KeyConfig, available: set<PermKey>, reset: bool, k: nat,
                               groups: Groups, created: nat, updated: nat, granted: nat)
    requires k <= |config|
  {
    groups == Seeded(start, config[..k], available, reset)
    && created + updated == k
    && created == Created(start, config[..k], available, reset)
    && granted == Assigned(start, config[..k], available, reset)
  }

  lemma SeedStart(start: Groups, config: KeyConfig, available: set<PermKey>, reset: bool)
    ensures SeedProgress(start, config, available, reset, 0, start, 0, 0, 0)
  {
    assert config[..0] == [];
  }

  lemma SeedDone(start: Groups, config: KeyConfig, available: set<PermKey>, reset: bool,
                 groups: Groups, created: nat, updated: nat, granted: nat)
    requires SeedProgress(start, config, available, reset, |config|, groups, created, updated, granted)
    ensures groups == Seeded(start, config, available, reset)
    ensures created + updated == |config|
    ensures created == Created(start, config, available, reset)
    ensures granted == Assigned(start, config, available, reset)
  {
    assert config[..|config|] == config;
  }

  /** One turn of the group loop keeps its invariant. */
  lemma SeedTurn(start: Groups, config: KeyConfig, available: set<PermKey>, reset: bool, k: nat, counts: (nat, nat, nat),
                 before: Groups, after: Groups, added: nat, isNew: bool, created: nat, updated: nat, granted: nat)
    requires k < |config|
    requires SeedProgress(start, config, available, reset, k, before, counts.0, counts.1, counts.2)
    requires isNew <==> config[k].0 !in before
    requires after == before[config[k].0 := Base(before, config[k].0, reset) + WantedKeys(config[k].1, available)]
    requires added == |WantedKeys(config[k].1, available) - Base(before, config[k].0, reset)|
    requires created == (if isNew then counts.0 + 1 else counts.0) && updated == (if isNew then counts.1 else counts.1 + 1)
    requires granted == counts.2 + added
    ensures SeedProgress(start, config, available, reset, k + 1, after, created, updated, granted)
  {
    SeedStep(start, config, k, available, reset, before, after, added);
    CreatedStep(start, config, k, available, reset, before);
  }

  /** One turn of the group loop moves the groups and the permission count from prefix `k` to prefix `k + 1`. */
  lemma SeedStep(groups: Groups, config: KeyConfig, k: nat, available: set<PermKey>, reset: bool,
                 before: Groups, after: Groups, added: nat)
    requires k < |config| && before == Seeded(groups, config[..k], available, reset)
    requires after == before[config[k].0 := Base(before, config[k].0, reset) + WantedKeys(config[k].1, available)]
    requires added == |WantedKeys(config[k].1, available) - Base(before, config[k].0, reset)|
    ensures after == Seeded(groups, config[..k + 1], available, reset)
    ensures Assigned(groups, config[..k + 1], available, reset) == Assigned(groups, config[..k], available, reset) + added
  {
    assert config[..k + 1][..k] == config[..k];
    assert config[..k + 1][k] == config[k];
  }

  /** One turn of the group loop counts its group as created exactly when the name was new. */
  lemma CreatedStep(groups: Groups, config: KeyConfig, k: nat, available: set<PermKey>, reset: bool, before: Groups)
    requires k < |config| && before == Seeded(groups, config[..k], available, reset)
    ensures Created(groups, config[..k + 1], available, reset)
      == Created(groups, config[..k], available, reset) + (if config[k].0 in before then 0 else 1)
  {
    assert config[..k + 1][..k] == config[..k];
  }

  /** The names of one more configured group are the earlier names and its own. */
  lemma NamesSnoc<T>(config: seq<(string, T)>, k: nat)
    requires k < |config|
    ensures Names(config[..k + 1]) == Names(config[..k]) + {config[k].0}
  {
    var name := config[k].0;
    forall n | n in Names(config[..k + 1]) ensures n in Names(config[..k]) + {name} {
      var j :| 0 <= j < k + 1 && config[..k + 1][j].0 == n;
      if j < k {
        assert config[..k][j] == config[..k + 1][j];
      }
    }
    forall n | n in Names(config[..k]) + {name} ensures n in Names(config[..k + 1]) {
      if n == name {
        assert config[..k + 1][k].0 == n;
      } else {
        var j :| 0 <= j < k && config[..k][j].0 == n;
        assert config[..k + 1][j] == config[..k][j];
      }
    }
  }


  /** Taking one more permission extends the wanted set or the warnings by that permission. */
  lemma PrefixStep(keys: seq<PermKey>, i: nat, available: set<PermKey>)
    requires i < |keys|
    ensures keys[i] in available ==> (WantedKeys(keys[..i + 1], available) == WantedKeys(keys[..i], available) + {keys[i]}
                                      && MissingKeys(keys[..i + 1], available) == MissingKeys(keys[..i], available))
    ensures keys[i] !in available ==> (WantedKeys(keys[..i + 1], available) == WantedKeys(keys[..i], available)
                                       && MissingKeys(keys[..i + 1], available) == MissingKeys(keys[..i], available) + [keys[i]])
  {
    assert keys[..i + 1][..i] == keys[..i];
    assert MissingKeys(keys[..i], available) + [] == MissingKeys(keys[..i], available);
    assert WantedKeys(keys[..i], available) + {} == WantedKeys(keys[..i], available);
  }

  /** Adding a permission the group lacks raises the count of new permissions by one; any other adds nothing. */
  lemma CountStep(sofar: set<PermKey>, base: set<PermKey>, p: PermKey)
    ensures p !in base + sofar ==> |(sofar + {p}) - base| == |sofar - base| + 1
    ensures p in base + sofar ==> (sofar + {p}) - base == sofar - base
  {
    if p !in base + sofar {
      assert (sofar + {p}) - base == (sofar - base) + {p};
    }
  }

  /** A name outside `known` adds one to the count of names not in `keys` exactly when it is not in `keys` itself. */
  lemma FreshNameCount(known: set<string>, name: string, keys: set<string>)
    requires name !in known
    ensures |(known + {name}) - keys| == |known - keys| + (if name in keys then 0 else 1)
  {
    if name in keys {
      assert (known + {name}) - keys == known - keys;
    } else {
      assert (known + {name}) - keys == (known - keys) + {name};
    }
  }
}
