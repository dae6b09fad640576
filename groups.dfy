/** The UE view: the user's UE configuration `ueGroups` (UE name -> catalog
    modules and credits), the credit lookup `getModuleCredits`, the grouping
    `groupModulesByUE` that rebuilds `groupedData`, and the two edits
    `mergeUEs` and `splitUE`. Both dictionaries keep their keys in the order
    of first assignment (Assoc), because key order decides which UE a module
    joins; names that look like array indices, which JavaScript would list
    first, are outside the model. */
module Groups {
  import opened Wrappers
  import opened Text
  import opened Grades
  import opened Matching
  import opened Assoc

  /** A module of a UE's configuration: name, credits and name aliases. */
  datatype CatalogModule = CatalogModule(name: string, credits: int, aliases: seq<string>)

  /** One entry of `ueGroups`. */
  datatype UEConfig = UEConfig(modules: seq<CatalogModule>, totalCredits: int)

  /** One entry of `groupedData`. `modules` holds the records themselves. */
  datatype UEGroup = UEGroup(
    name: string,
    modules: seq<Module>,
    totalCredits: int,
    weightedScore: real,
    moyenne: real,
    isGeneral: bool)

  type Config = Dict<string, UEConfig>
  type Grouped = Dict<string, UEGroup>

  const GeneralUEName: string := "Moyenne Générale UE"

  // ---------------------------------------------------------------------------
  // getModuleCredits

  /** Credits of the first catalog module whose lower-cased name is `key`. */
  function CatalogCredits(mods: seq<CatalogModule>, key: string): (r: Option<int>)
    ensures r.Some? ==> exists j | 0 <= j < |mods| ::
      && Lower(mods[j].name) == key && mods[j].credits == r.value
      && forall j' | 0 <= j' < j :: Lower(mods[j'].name) != key
    ensures r.None? ==> forall j | 0 <= j < |mods| :: Lower(mods[j].name) != key
  {
    if mods == [] then None
    else if Lower(mods[0].name) == key then Some(mods[0].credits)
    else
      var r := CatalogCredits(mods[1..], key);
      assert forall j | 1 <= j < |mods| :: mods[j] == mods[1..][j - 1];
      assert r.Some? ==> exists j | 0 <= j < |mods[1..]| ::
        && Lower(mods[1..][j].name) == key && mods[1..][j].credits == r.value
        && forall j' | 0 <= j' < j :: Lower(mods[1..][j'].name) != key;
      r
  }

  /** The same search through every UE, in key order: the first UE that
      lists the name answers, with its first such module. */
  function ConfigCredits(config: Config, key: string): (r: Option<int>)
    ensures r.Some? ==> exists e, j | 0 <= e < |config| && 0 <= j < |config[e].1.modules| ::
      && Lower(config[e].1.modules[j].name) == key && config[e].1.modules[j].credits == r.value
      && (forall j' | 0 <= j' < j :: Lower(config[e].1.modules[j'].name) != key)
      && forall e', j' | 0 <= e' < e && 0 <= j' < |config[e'].1.modules| ::
           Lower(config[e'].1.modules[j'].name) != key
    ensures r.None? ==> forall e, j | 0 <= e < |config| && 0 <= j < |config[e].1.modules| ::
      Lower(config[e].1.modules[j].name) != key
  {
    if config == [] then None
    else
      var here := CatalogCredits(config[0].1.modules, key);
      if here.Some? then here
      else
        var r := ConfigCredits(config[1..], key);
        assert forall e | 1 <= e < |config| :: config[e] == config[1..][e - 1];
        r
  }

  /** `getModuleCredits`: the name, white space collapsed, trimmed and
      lower-cased, is looked up exactly in the configuration; 1 otherwise. */
  function GetModuleCredits(config: Config, name: string): int
  {
    ConfigCredits(config, Lower(Normalize(name))).GetOr(1)
  }

  /** With no configuration every module is worth 1 credit. */
  lemma CreditsWithoutConfig(name: string)
    ensures GetModuleCredits([], name) == 1
  {
  }

  /** A configured module found by name gives the credits of its first
      listing, in UE order and then module order; a name found nowhere
      gives 1. */
  lemma CreditsLookup(config: Config, name: string)
    ensures var key := Lower(Normalize(name));
      (forall e, j | 0 <= e < |config| && 0 <= j < |config[e].1.modules| ::
         Lower(config[e].1.modules[j].name) != key)
      ==> GetModuleCredits(config, name) == 1
    ensures var key := Lower(Normalize(name));
      (exists e, j | 0 <= e < |config| && 0 <= j < |config[e].1.modules| ::
         Lower(config[e].1.modules[j].name) == key)
      ==> exists e, j | 0 <= e < |config| && 0 <= j < |config[e].1.modules| ::
            && Lower(config[e].1.modules[j].name) == key
            && config[e].1.modules[j].credits == GetModuleCredits(config, name)
            && (forall j' | 0 <= j' < j :: Lower(config[e].1.modules[j'].name) != key)
            && forall e', j' | 0 <= e' < e && 0 <= j' < |config[e'].1.modules| ::
                 Lower(config[e'].1.modules[j'].name) != key
  {
    var c := ConfigCredits(config, Lower(Normalize(name)));
    assert GetModuleCredits(config, name) == c.GetOr(1);
  }

  /** Extra white space in a name does not change its credits. */
  lemma CreditsIgnoreSpacing(config: Config, name: string)
    ensures GetModuleCredits(config, Normalize(name)) == GetModuleCredits(config, name)
  {
    NormalizeIdempotent(name);
  }

  // ---------------------------------------------------------------------------
  // Weighted scores of a group's members

  /** A member's weighted score; a member without an average adds nothing. */
  function ModuleScore(m: Module): real
  {
    if m.moyenne.Some? then m.moyenne.value * m.credits as real else 0.0
  }

  /** Σ weighted scores of the members, accumulated left to right. */
  function ScoreSum(mods: seq<Module>): real
  {
    if mods == [] then 0.0 else ScoreSum(mods[..|mods| - 1]) + ModuleScore(mods[|mods| - 1])
  }

  /** Σ credits of all members, with or without an average. */
  function CreditTotal(mods: seq<Module>): int
  {
    if mods == [] then 0 else CreditTotal(mods[..|mods| - 1]) + mods[|mods| - 1].credits
  }

  /** Σ credits of the members that have an average (`validCredits`). */
  function ValidCredits(mods: seq<Module>): int
  {
    if mods == [] then 0
    else ValidCredits(mods[..|mods| - 1]) + (if mods[|mods| - 1].moyenne.Some? then mods[|mods| - 1].credits else 0)
  }

  lemma SumsAppend(mods: seq<Module>, m: Module)
    ensures ScoreSum(mods + [m]) == ScoreSum(mods) + ModuleScore(m)
    ensures CreditTotal(mods + [m]) == CreditTotal(mods) + m.credits
    ensures ValidCredits(mods + [m]) == ValidCredits(mods) + (if m.moyenne.Some? then m.credits else 0)
  {
    assert (mods + [m])[..|mods|] == mods;
  }

  lemma {:induction false} SumsConcat(a: seq<Module>, b: seq<Module>)
    ensures ScoreSum(a + b) == ScoreSum(a) + ScoreSum(b)
    ensures CreditTotal(a + b) == CreditTotal(a) + CreditTotal(b)
    ensures ValidCredits(a + b) == ValidCredits(a) + ValidCredits(b)
    decreases |b|
  {
    if b != [] {
      var init, m := b[..|b| - 1], b[|b| - 1];
      assert b == init + [m];
      assert a + b == (a + init) + [m];
      SumsConcat(a, init);
      SumsAppend(a + init, m);
      SumsAppend(init, m);
    } else {
      assert a + b == a;
    }
  }

  /** When every member has an average, all credits are valid credits. */
  lemma {:induction false} ValidCreditsAllGraded(mods: seq<Module>)
    requires forall i | 0 <= i < |mods| :: mods[i].moyenne.Some?
    ensures ValidCredits(mods) == CreditTotal(mods)
  {
    if mods != [] {
      ValidCreditsAllGraded(mods[..|mods| - 1]);
    }
  }

  predicate MemberInRange(m: Module)
  {
    m.credits >= 0 && (m.moyenne.Some? ==> 0.0 <= m.moyenne.value <= 20.0)
  }

  /** Members with averages in [0, 20] and non-negative credits have a
      weighted score between 0 and 20 times their credits. */
  lemma {:induction false} ScoreSumBounds(mods: seq<Module>)
    requires forall i | 0 <= i < |mods| :: MemberInRange(mods[i])
    ensures 0 <= CreditTotal(mods)
    ensures 0.0 <= ScoreSum(mods) <= 20.0 * CreditTotal(mods) as real
  {
    if mods != [] {
      var init, m := mods[..|mods| - 1], mods[|mods| - 1];
      ScoreSumBounds(init);
      MemberScoreBounds(m);
      SumStep(ScoreSum(init), CreditTotal(init), ModuleScore(m), m.credits);
    }
  }

  lemma MemberScoreBounds(m: Module)
    requires MemberInRange(m)
    ensures 0.0 <= ModuleScore(m) <= 20.0 * m.credits as real
  {
    if m.moyenne.Some? {
      var x := m.moyenne.value;
      ProductBounds(x, m.credits);
      assert ModuleScore(m) == x * m.credits as real;
    }
  }

  // ---------------------------------------------------------------------------
  // groupModulesByUE

  /** A module in a group of its own, keyed by its designation; a missing
      average counts as 0 (`module.moyenne || 0`). */
  function Singleton(m: Module): UEGroup
  {
    UEGroup(m.designation, [m], m.credits, ModuleScore(m), m.moyenne.GetOr(0.0), false)
  }

  /** A configured UE before any module joins it. */
  function EmptyGroup(name: string, info: UEConfig): UEGroup
  {
    UEGroup(name, [], info.totalCredits, 0.0, 0.0, false)
  }

  /** The first loop of the configured branch: one empty group per UE, in
      key order. */
  function InitialGroups(config: Config): Grouped
  {
    if config == [] then []
    else
      var last := config[|config| - 1];
      Set(InitialGroups(config[..|config| - 1]), last.0, EmptyGroup(last.0, last.1))
  }

  /** Some module of the UE's configuration matches the record's name
      (both lower-cased, with that module's aliases). */
  predicate UEMatches(info: UEConfig, m: Module)
  {
    exists j | 0 <= j < |info.modules| ::
      IsModuleMatch(Lower(m.designation), Lower(info.modules[j].name), info.modules[j].aliases)
  }

  /** Index, in key order, of the first UE the record matches. */
  function FirstMatchingUE(config: Config, m: Module): (r: Option<nat>)
    ensures r.Some? ==> r.value < |config| && UEMatches(config[r.value].1, m)
    ensures r.Some? ==> forall e | 0 <= e < r.value :: !UEMatches(config[e].1, m)
    ensures r.None? ==> forall e | 0 <= e < |config| :: !UEMatches(config[e].1, m)
  {
    if config == [] then None
    else if UEMatches(config[0].1, m) then Some(0)
    else match FirstMatchingUE(config[1..], m) {
      case None => None
      case Some(e) => Some(e + 1)
    }
  }

  /** The first matching UE is the unique index that matches after no
      earlier one does. */
  lemma FirstMatchingUEAt(config: Config, m: Module, e: nat)
    requires e < |config| && UEMatches(config[e].1, m)
    requires forall f | 0 <= f < e :: !UEMatches(config[f].1, m)
    ensures FirstMatchingUE(config, m) == Some(e)
  {
  }

  /** A member joins a group: `modules.push`, the running weighted score and
      the `reduce` of the members' credits. */
  function AppendMember(g: UEGroup, m: Module): (r: UEGroup)
    ensures r.modules == g.modules + [m]
  {
    var mods := g.modules + [m];
    g.(modules := mods, weightedScore := g.weightedScore + ModuleScore(m), totalCredits := CreditTotal(mods))
  }

  predicate ConfigKeysIn(config: Config, groups: Grouped)
  {
    forall e | 0 <= e < |config| :: config[e].0 in Keys(groups)
  }

  /** One step of the assignment loop: a real module joins the first UE it
      matches, or else gets a singleton group under its designation (which
      replaces any group already under that key). */
  function Assign(groups: Grouped, config: Config, m: Module): (r: Grouped)
    requires ConfigKeysIn(config, groups)
    ensures ConfigKeysIn(config, r)
  {
    if m.isGeneral then groups
    else match FirstMatchingUE(config, m) {
      case Some(e) =>
        var k := config[e].0;
        Set(groups, k, AppendMember(Lookup(groups, k).value, m))
      case None =>
        Set(groups, m.designation, Singleton(m))
    }
  }

  /** The assignment loop over the records, left to right. */
  function AssignAll(groups: Grouped, config: Config, data: seq<Module>): (r: Grouped)
    requires ConfigKeysIn(config, groups)
    ensures ConfigKeysIn(config, r)
  {
    if data == [] then groups
    else Assign(AssignAll(groups, config, data[..|data| - 1]), config, data[|data| - 1])
  }

  /** The final loop on one group: a group with members gets its weighted
      score and credits recomputed from them, and its mean when those credits
      are positive; an empty group is left as it is. */
  function RecomputeGroup(g: UEGroup): UEGroup
  {
    if |g.modules| == 0 then g
    else
      var ws, tc := ScoreSum(g.modules), CreditTotal(g.modules);
      g.(weightedScore := ws, totalCredits := tc, moyenne := if tc > 0 then ws / tc as real else g.moyenne)
  }

  function RecomputeAll(groups: Grouped): (r: Grouped)
    ensures |r| == |groups|
    ensures forall i | 0 <= i < |groups| :: r[i] == (groups[i].0, RecomputeGroup(groups[i].1))
  {
    seq(|groups|, i requires 0 <= i < |groups| => (groups[i].0, RecomputeGroup(groups[i].1)))
  }

  /** A group that enters the overall UE average. */
  predicate CountedGroup(g: UEGroup)
  {
    |g.modules| > 0 && g.totalCredits > 0
  }

  /** Σ moyenne·totalCredits over the counted groups (`totalUEScore`). */
  function UEScore(groups: Grouped): real
  {
    if groups == [] then 0.0
    else
      var g := groups[|groups| - 1].1;
      UEScore(groups[..|groups| - 1]) + (if CountedGroup(g) then g.moyenne * g.totalCredits as real else 0.0)
  }

  /** Σ totalCredits over the counted groups (`totalUECredits`). */
  function UECredits(groups: Grouped): int
  {
    if groups == [] then 0
    else
      var g := groups[|groups| - 1].1;
      UECredits(groups[..|groups| - 1]) + (if CountedGroup(g) then g.totalCredits else 0)
  }

  lemma UESumsSnoc(groups: Grouped, e: (string, UEGroup))
    ensures UEScore(groups + [e]) == UEScore(groups) + (if CountedGroup(e.1) then e.1.moyenne * e.1.totalCredits as real else 0.0)
    ensures UECredits(groups + [e]) == UECredits(groups) + (if CountedGroup(e.1) then e.1.totalCredits else 0)
  {
    assert (groups + [e])[..|groups|] == groups;
  }

  /** The overall UE row. */
  function GeneralUE(totalUEScore: real, totalUECredits: int): UEGroup
    requires totalUECredits > 0
  {
    UEGroup(GeneralUEName, [], totalUECredits, totalUEScore, totalUEScore / totalUECredits as real, true)
  }

  /** `groupModulesByUE`: `groupedData` rebuilt from the records and the
      configuration. With no configuration every real module gets a singleton
      group; the overall UE row is added only when UEs are configured and
      some credits were counted. */
  function GroupModulesByUE(data: seq<Module>, config: Config): Grouped
  {
    WithGeneralUE(MemberGroups(data, config), |config| > 0)
  }

  /** The groups before the overall UE row: assigned, then recomputed. */
  function MemberGroups(data: seq<Module>, config: Config): Grouped
  {
    InitialGroupsCover(config);
    RecomputeAll(AssignAll(InitialGroups(config), config, data))
  }

  /** The overall UE row is added when UEs are configured and the counted
      credits are positive. */
  function WithGeneralUE(groups: Grouped, configured: bool): Grouped
  {
    var tus, tuc := UEScore(groups), UECredits(groups);
    if configured && tuc > 0 then Set(groups, GeneralUEName, GeneralUE(tus, tuc)) else groups
  }

  // ---------------------------------------------------------------------------
  // Properties of the grouping

  /** The initial groups are exactly the configured UEs, in key order. */
  lemma {:induction false} InitialGroupsKeys(config: Config)
    requires DistinctKeys(config)
    ensures Keys(InitialGroups(config)) == Keys(config)
  {
    if config != [] {
      var init, last := config[..|config| - 1], config[|config| - 1];
      DistinctSnoc(config);
      InitialGroupsKeys(init);
    }
  }

  /** Dropping the last entry of a dictionary without duplicates. */
  lemma DistinctSnoc<K, V>(d: Dict<K, V>)
    requires d != [] && DistinctKeys(d)
    ensures var init, last := d[..|d| - 1], d[|d| - 1];
      && DistinctKeys(init) && last.0 !in Keys(init) && Keys(d) == Keys(init) + [last.0]
  {
    var init, last := d[..|d| - 1], d[|d| - 1];
    assert d == init + [last];
    KeysSnoc(init, last);
    forall i | 0 <= i < |init| ensures Keys(init)[i] != last.0 {
      assert d[i] == init[i];
    }
  }

  lemma {:induction false} KeysSnoc<K, V>(d: Dict<K, V>, x: (K, V))
    ensures Keys(d + [x]) == Keys(d) + [x.0]
  {
    if d != [] {
      assert (d + [x])[1..] == d[1..] + [x];
      KeysSnoc(d[1..], x);
    }
  }

  /** Assignment keeps every key and adds its own: keys listed before the
      last entry of `keys` stay, and the last entry is the key assigned. */
  lemma SetKeepsKeys<K(!new), V, W>(keys: Dict<K, W>, d: Dict<K, V>, v: V)
    requires keys != []
    requires forall e | 0 <= e < |keys| - 1 :: keys[e].0 in Keys(d)
    ensures forall e | 0 <= e < |keys| :: keys[e].0 in Keys(Set(d, keys[|keys| - 1].0, v))
  {
  }

  /** Every configured UE has a group from the start. */
  lemma {:induction false} InitialGroupsCover(config: Config)
    ensures ConfigKeysIn(config, InitialGroups(config))
  {
    if config != [] {
      var init, last := config[..|config| - 1], config[|config| - 1];
      InitialGroupsCover(init);
      var before, group := InitialGroups(init), EmptyGroup(last.0, last.1);
      assert InitialGroups(config) == Set(before, last.0, group);
      forall e | 0 <= e < |config| - 1 ensures config[e].0 in Keys(before) {
        assert config[e] == init[e];
      }
      SetKeepsKeys(config, before, group);
    }
  }

  /** One assignment step: a real module lands in the first UE it matches, in
      key order, at the end of its members; without a match it gets the
      singleton group under its designation; no other group changes. */
  lemma AssignPlacement(groups: Grouped, config: Config, m: Module)
    requires ConfigKeysIn(config, groups)
    ensures var r := Assign(groups, config, m);
      && (m.isGeneral ==> r == groups)
      && (!m.isGeneral && FirstMatchingUE(config, m).Some? ==>
            var k := config[FirstMatchingUE(config, m).value].0;
            && Lookup(r, k).Some?
            && Lookup(r, k).value.modules == Lookup(groups, k).value.modules + [m]
            && forall k' | k' != k :: Lookup(r, k') == Lookup(groups, k'))
      && (!m.isGeneral && FirstMatchingUE(config, m).None? ==>
            && Lookup(r, m.designation) == Some(Singleton(m))
            && forall k' | k' != m.designation :: Lookup(r, k') == Lookup(groups, k'))
  {
  }

  /** Configured UEs keep their place at the front of `groupedData`: the
      assignment only appends new keys. */
  lemma {:induction false} AssignKeepsKeyOrder(groups: Grouped, config: Config, data: seq<Module>)
    requires ConfigKeysIn(config, groups)
    ensures Keys(groups) <= Keys(AssignAll(groups, config, data))
  {
    if data != [] {
      AssignKeepsKeyOrder(groups, config, data[..|data| - 1]);
    }
  }

  /** No grouping step makes a group general. */
  predicate NoGeneralGroup(groups: Grouped)
  {
    forall i | 0 <= i < |groups| :: !groups[i].1.isGeneral
  }

  lemma {:induction false} InitialGroupsNotGeneral(config: Config)
    ensures NoGeneralGroup(InitialGroups(config))
  {
    if config != [] {
      InitialGroupsNotGeneral(config[..|config| - 1]);
      SetNotGeneral(InitialGroups(config[..|config| - 1]), config[|config| - 1].0,
        EmptyGroup(config[|config| - 1].0, config[|config| - 1].1));
    }
  }

  lemma SetNotGeneral(groups: Grouped, k: string, g: UEGroup)
    requires NoGeneralGroup(groups) && !g.isGeneral
    ensures NoGeneralGroup(Set(groups, k, g))
  {
    var r := Set(groups, k, g);
    forall i | 0 <= i < |r| ensures !r[i].1.isGeneral {
      SetEntry(groups, k, g, i);
    }
  }

  /** Every entry of `Set(d, k, v)` is `(k, v)` or an entry of `d`. */
  lemma {:induction false} SetEntry<K(!new), V>(d: Dict<K, V>, k: K, v: V, i: nat)
    requires i < |Set(d, k, v)|
    ensures Set(d, k, v)[i] == (k, v) || Set(d, k, v)[i] in d
  {
    if d != [] && d[0].0 != k && i > 0 {
      SetEntry(d[1..], k, v, i - 1);
    }
  }

  lemma {:induction false} AssignAllNotGeneral(groups: Grouped, config: Config, data: seq<Module>)
    requires ConfigKeysIn(config, groups) && NoGeneralGroup(groups)
    ensures NoGeneralGroup(AssignAll(groups, config, data))
  {
    if data != [] {
      var prev := AssignAll(groups, config, data[..|data| - 1]);
      AssignAllNotGeneral(groups, config, data[..|data| - 1]);
      var m := data[|data| - 1];
      if !m.isGeneral {
        match FirstMatchingUE(config, m) {
          case Some(e) =>
            var k := config[e].0;
            var g := Lookup(prev, k).value;
            LookupIn(prev, k);
            SetNotGeneral(prev, k, AppendMember(g, m));
          case None =>
            SetNotGeneral(prev, m.designation, Singleton(m));
        }
      }
    }
  }

  /** A value found under a key is the value of some entry. */
  lemma {:induction false} LookupIn<K(!new), V>(d: Dict<K, V>, k: K)
    requires Lookup(d, k).Some?
    ensures (k, Lookup(d, k).value) in d
  {
    if d[0].0 != k {
      LookupIn(d[1..], k);
    }
  }

  /** `groupedData` holds exactly one general row, the overall UE row, when
      UEs are configured and the counted credits are positive, and none
      otherwise. */
  lemma GeneralUEPresence(data: seq<Module>, config: Config)
    ensures var r := GroupModulesByUE(data, config);
      (exists i | 0 <= i < |r| :: r[i].1.isGeneral) <==>
        |config| > 0 && UECredits(MemberGroups(data, config)) > 0
  {
    MemberGroupsNotGeneral(data, config);
    GeneralUEOnlyWhenCounted(MemberGroups(data, config), |config| > 0);
  }

  lemma MemberGroupsNotGeneral(data: seq<Module>, config: Config)
    ensures NoGeneralGroup(MemberGroups(data, config))
  {
    InitialGroupsCover(config);
    InitialGroupsNotGeneral(config);
    AssignAllNotGeneral(InitialGroups(config), config, data);
  }

  lemma GeneralUEOnlyWhenCounted(groups: Grouped, configured: bool)
    requires NoGeneralGroup(groups)
    ensures var r := WithGeneralUE(groups, configured);
      (exists i | 0 <= i < |r| :: r[i].1.isGeneral) <==> configured && UECredits(groups) > 0
  {
    var tuc := UECredits(groups);
    if configured && tuc > 0 {
      var g := GeneralUE(UEScore(groups), tuc);
      var r := Set(groups, GeneralUEName, g);
      LookupIn(r, GeneralUEName);
      var i :| 0 <= i < |r| && r[i] == (GeneralUEName, g);
      assert r[i].1.isGeneral;
    }
  }

  /** What the final loop leaves in every group with members: the weighted
      score and credits of its members, and their weighted mean when those
      credits are positive. */
  predicate Recomputed(g: UEGroup)
  {
    |g.modules| > 0 ==>
      && g.weightedScore == ScoreSum(g.modules)
      && g.totalCredits == CreditTotal(g.modules)
      && (g.totalCredits > 0 ==> g.moyenne == ScoreSum(g.modules) / CreditTotal(g.modules) as real)
  }

  /** Every group of `groupedData` is recomputed from its members: the mean of
      a group divides by the credits of all its members, graded or not. */
  lemma GroupsRecomputed(data: seq<Module>, config: Config)
    ensures var r := GroupModulesByUE(data, config);
      forall i | 0 <= i < |r| :: Recomputed(r[i].1)
  {
    var recomputed := MemberGroups(data, config);
    assert forall i | 0 <= i < |recomputed| :: Recomputed(recomputed[i].1);
    var tuc := UECredits(recomputed);
    if |config| > 0 && tuc > 0 {
      var g := GeneralUE(UEScore(recomputed), tuc);
      var r := Set(recomputed, GeneralUEName, g);
      forall i | 0 <= i < |r| ensures Recomputed(r[i].1) {
        SetEntry(recomputed, GeneralUEName, g, i);
      }
    }
  }

  /** A recomputed group whose members have averages in [0, 20] and
      non-negative credits has a mean in [0, 20]. */
  lemma GroupMeanInRange(g: UEGroup)
    requires Recomputed(g) && |g.modules| > 0 && g.totalCredits > 0
    requires forall i | 0 <= i < |g.modules| :: MemberInRange(g.modules[i])
    ensures 0.0 <= g.moyenne <= 20.0
  {
    ScoreSumBounds(g.modules);
    QuotientBounds(ScoreSum(g.modules), CreditTotal(g.modules) as real);
  }

  /** Without a configuration there is no overall UE row and every group is
      a singleton: one real module, under its own designation. */
  lemma {:induction false} DefaultGroupsAreSingletons(data: seq<Module>)
    ensures var r := GroupModulesByUE(data, []);
      forall i | 0 <= i < |r| ::
        && |r[i].1.modules| == 1
        && r[i].1.modules[0].designation == r[i].0
        && !r[i].1.modules[0].isGeneral
  {
    var placed := AssignAll([], [], data);
    AssignAllSingletons(data);
  }

  predicate Singletons(groups: Grouped)
  {
    forall i | 0 <= i < |groups| ::
      && |groups[i].1.modules| == 1
      && groups[i].1.modules[0].designation == groups[i].0
      && !groups[i].1.modules[0].isGeneral
  }

  lemma {:induction false} AssignAllSingletons(data: seq<Module>)
    ensures Singletons(AssignAll([], [], data))
  {
    if data != [] {
      AssignAllSingletons(data[..|data| - 1]);
      var prev := AssignAll([], [], data[..|data| - 1]);
      var m := data[|data| - 1];
      if !m.isGeneral {
        var r := Set(prev, m.designation, Singleton(m));
        forall i | 0 <= i < |r|
          ensures |r[i].1.modules| == 1 && r[i].1.modules[0].designation == r[i].0 && !r[i].1.modules[0].isGeneral
        {
          SetEntry(prev, m.designation, Singleton(m), i);
        }
      }
    }
  }

  // ---------------------------------------------------------------------------
  // Every real record lands in exactly one group

  /** All members of all groups, with repetitions. */
  function Members(groups: Grouped): multiset<Module>
  {
    if groups == [] then multiset{} else multiset(groups[0].1.modules) + Members(groups[1..])
  }

  /** The real (non-overall) records, with repetitions. */
  function RealRecords(data: seq<Module>): multiset<Module>
  {
    if data == [] then multiset{}
    else
      var m := data[|data| - 1];
      RealRecords(data[..|data| - 1]) + (if m.isGeneral then multiset{} else multiset{m})
  }

  /** No two real records share a designation, and none is the key of a group
      that already exists. */
  predicate FreshDesignations(keys: seq<string>, data: seq<Module>)
  {
    && (forall i | 0 <= i < |data| && !data[i].isGeneral :: data[i].designation !in keys)
    && (forall i, j | 0 <= i < j < |data| && !data[i].isGeneral && !data[j].isGeneral ::
          data[i].designation != data[j].designation)
  }

  /** Storing a group under a key drops the members of the group the key held
      before, if any, and adds the members of the new one (counted per
      record). */
  lemma {:induction false} SetMembers(d: Grouped, k: string, g: UEGroup, x: Module)
    ensures Members(Set(d, k, g))[x] + (if Lookup(d, k).Some? then multiset(Lookup(d, k).value.modules)[x] else 0)
         == Members(d)[x] + multiset(g.modules)[x]
  {
    var r := Set(d, k, g);
    if d == [] {
      assert r == [(k, g)] && r[1..] == [];
    } else if d[0].0 == k {
      assert r[0] == (k, g) && r[1..] == d[1..];
    } else {
      SetMembers(d[1..], k, g, x);
      assert r[0] == d[0] && r[1..] == Set(d[1..], k, g);
    }
  }

  lemma {:induction false} InitialGroupsEmpty(config: Config, x: Module)
    ensures Members(InitialGroups(config))[x] == 0
  {
    if config != [] {
      var last := config[|config| - 1];
      InitialGroupsEmpty(config[..|config| - 1], x);
      SetMembers(InitialGroups(config[..|config| - 1]), last.0, EmptyGroup(last.0, last.1), x);
    }
  }

  /** The assignment loop only adds keys of configured UEs or designations of
      the records it has seen. */
  lemma {:induction false} AssignAllKeys(groups: Grouped, config: Config, data: seq<Module>, k: string)
    requires ConfigKeysIn(config, groups)
    requires k in Keys(AssignAll(groups, config, data))
    ensures k in Keys(groups) || exists i | 0 <= i < |data| :: !data[i].isGeneral && data[i].designation == k
  {
    if data != [] {
      var init, m := data[..|data| - 1], data[|data| - 1];
      var before := AssignAll(groups, config, init);
      if k in Keys(before) {
        AssignAllKeys(groups, config, init, k);
        if !(k in Keys(groups)) {
          var i :| 0 <= i < |init| && !init[i].isGeneral && init[i].designation == k;
          assert data[i] == init[i];
        }
      } else {
        assert !m.isGeneral && FirstMatchingUE(config, m).None?;
        assert m.designation == k;
      }
    }
  }

  /** One assignment step adds the record to exactly one group, as long as a
      record that matches no UE does not land on an existing key. */
  lemma AssignMembers(groups: Grouped, config: Config, m: Module, x: Module)
    requires ConfigKeysIn(config, groups)
    requires !m.isGeneral && FirstMatchingUE(config, m).None? ==> m.designation !in Keys(groups)
    ensures Members(Assign(groups, config, m))[x] == Members(groups)[x] + (if !m.isGeneral && m == x then 1 else 0)
  {
    if !m.isGeneral {
      match FirstMatchingUE(config, m) {
        case Some(e) =>
          var k := config[e].0;
          var g := Lookup(groups, k).value;
          assert Assign(groups, config, m) == Set(groups, k, AppendMember(g, m));
          SetMembers(groups, k, AppendMember(g, m), x);
          assert multiset(AppendMember(g, m).modules) == multiset(g.modules) + multiset{m};
        case None =>
          assert Assign(groups, config, m) == Set(groups, m.designation, Singleton(m));
          SetMembers(groups, m.designation, Singleton(m), x);
          assert multiset(Singleton(m).modules) == multiset{m};
      }
    }
  }

  /** The assignment loop adds each real record once, as long as designations
      are fresh: the groups' members grow by exactly the real records. */
  lemma {:induction false} AssignAllMembers(groups: Grouped, config: Config, data: seq<Module>, x: Module)
    requires ConfigKeysIn(config, groups)
    requires FreshDesignations(Keys(groups), data)
    ensures Members(AssignAll(groups, config, data))[x] == Members(groups)[x] + RealRecords(data)[x]
  {
    if data != [] {
      var init, m := data[..|data| - 1], data[|data| - 1];
      assert FreshDesignations(Keys(groups), init) by {
        forall i | 0 <= i < |init| ensures init[i] == data[i] {}
      }
      AssignAllMembers(groups, config, init, x);
      var before := AssignAll(groups, config, init);
      if !m.isGeneral && m.designation in Keys(before) {
        AssignAllKeys(groups, config, init, m.designation);
        assert false;
      }
      AssignMembers(before, config, m, x);
    }
  }

  /** The final loop recomputes scores and means but keeps every group's members. */
  lemma {:induction false} RecomputeAllMembers(groups: Grouped, x: Module)
    ensures Members(RecomputeAll(groups))[x] == Members(groups)[x]
  {
    if groups != [] {
      RecomputeAllMembers(groups[1..], x);
      assert RecomputeAll(groups)[1..] == RecomputeAll(groups[1..]);
    }
  }

  /** `groupModulesByUE` partitions the real records: when no two of them
      share a designation and none is named like a configured UE, the members
      of the groups are exactly the real records, each once, with or without
      a configuration. */
  lemma GroupsPartition(data: seq<Module>, config: Config)
    requires DistinctKeys(config)
    requires FreshDesignations(Keys(config), data)
    ensures Members(MemberGroups(data, config)) == RealRecords(data)
  {
    forall x ensures Members(MemberGroups(data, config))[x] == RealRecords(data)[x] {
      GroupsPartitionAt(data, config, x);
    }
  }

  lemma GroupsPartitionAt(data: seq<Module>, config: Config, x: Module)
    requires DistinctKeys(config)
    requires FreshDesignations(Keys(config), data)
    ensures Members(MemberGroups(data, config))[x] == RealRecords(data)[x]
  {
    InitialGroupsCover(config);
    InitialGroupsKeys(config);
    InitialGroupsEmpty(config, x);
    AssignAllMembers(InitialGroups(config), config, data, x);
    RecomputeAllMembers(AssignAll(InitialGroups(config), config, data), x);
  }

  /** A record whose designation no real record carries is not among them. */
  lemma {:induction false} RealRecordsMissing(data: seq<Module>, x: Module)
    requires forall j | 0 <= j < |data| && !data[j].isGeneral :: data[j].designation != x.designation
    ensures RealRecords(data)[x] == 0
  {
    if data != [] {
      RealRecordsMissing(data[..|data| - 1], x);
    }
  }

  /** With fresh designations a real record occurs once among the real records. */
  lemma {:induction false} RealRecordsOnce(keys: seq<string>, data: seq<Module>, i: nat)
    requires FreshDesignations(keys, data) && i < |data| && !data[i].isGeneral
    ensures RealRecords(data)[data[i]] == 1
  {
    var init, m := data[..|data| - 1], data[|data| - 1];
    assert FreshDesignations(keys, init) by {
      forall j | 0 <= j < |init| ensures init[j] == data[j] {}
    }
    if i == |data| - 1 {
      forall j | 0 <= j < |init| && !init[j].isGeneral ensures init[j].designation != m.designation {
        assert init[j] == data[j];
      }
      RealRecordsMissing(init, m);
    } else {
      RealRecordsOnce(keys, init, i);
      assert m != data[i] by {
        assert !m.isGeneral ==> m.designation != data[i].designation;
      }
    }
  }

  /** Hence each real record sits in exactly one group, once. */
  lemma GroupsHoldEachOnce(data: seq<Module>, config: Config, i: nat)
    requires DistinctKeys(config)
    requires FreshDesignations(Keys(config), data)
    requires i < |data| && !data[i].isGeneral
    ensures Members(MemberGroups(data, config))[data[i]] == 1
  {
    GroupsPartitionAt(data, config, data[i]);
    RealRecordsOnce(Keys(config), data, i);
  }

  /** Without a configuration, distinct designations are all it takes. */
  lemma GroupsPartitionDefault(data: seq<Module>)
    requires FreshDesignations([], data)
    ensures Members(MemberGroups(data, [])) == RealRecords(data)
  {
    GroupsPartition(data, []);
  }

  /** The overall UE row adds no member: when no real record and no
      configured UE is named like it, `groupModulesByUE` itself partitions
      the real records. */
  lemma GroupModulesByUEPartition(data: seq<Module>, config: Config)
    requires DistinctKeys(config) && GeneralUEName !in Keys(config)
    requires FreshDesignations(Keys(config) + [GeneralUEName], data)
    ensures Members(GroupModulesByUE(data, config)) == RealRecords(data)
  {
    var groups := MemberGroups(data, config);
    assert FreshDesignations(Keys(config), data);
    GroupsPartition(data, config);
    if |config| > 0 && UECredits(groups) > 0 {
      GeneralUENameFree(data, config);
      GeneralRowAddsNoMember(groups, GeneralUE(UEScore(groups), UECredits(groups)));
    }
  }

  /** Before the overall row, no group is keyed by its name. */
  lemma GeneralUENameFree(data: seq<Module>, config: Config)
    requires DistinctKeys(config) && GeneralUEName !in Keys(config)
    requires FreshDesignations(Keys(config) + [GeneralUEName], data)
    ensures Lookup(MemberGroups(data, config), GeneralUEName).None?
  {
    InitialGroupsCover(config);
    InitialGroupsKeys(config);
    var assignedGroups := AssignAll(InitialGroups(config), config, data);
    RecomputeAllKeys(assignedGroups);
    if GeneralUEName in Keys(assignedGroups) {
      AssignAllKeys(InitialGroups(config), config, data, GeneralUEName);
      assert false;
    }
  }

  /** Recomputing the groups keeps their keys. */
  lemma RecomputeAllKeys(groups: Grouped)
    ensures Keys(RecomputeAll(groups)) == Keys(groups)
  {
  }

  /** Storing a group without members under a new key keeps the members. */
  lemma GeneralRowAddsNoMember(groups: Grouped, general: UEGroup)
    requires Lookup(groups, GeneralUEName).None? && general.modules == []
    ensures Members(Set(groups, GeneralUEName, general)) == Members(groups)
  {
    forall x ensures Members(Set(groups, GeneralUEName, general))[x] == Members(groups)[x] {
      SetMembers(groups, GeneralUEName, general, x);
    }
  }

  /** A record that matches no UE and whose designation already keys a group
      replaces that group: the old group's members drop out. */
  lemma AssignOverwrites(groups: Grouped, config: Config, m: Module)
    requires ConfigKeysIn(config, groups)
    requires !m.isGeneral && FirstMatchingUE(config, m).None? && Lookup(groups, m.designation).Some?
    ensures forall x ::
      Members(Assign(groups, config, m))[x] + multiset(Lookup(groups, m.designation).value.modules)[x]
      == Members(groups)[x] + (if x == m then 1 else 0)
  {
    forall x ensures Members(Assign(groups, config, m))[x] + multiset(Lookup(groups, m.designation).value.modules)[x]
         == Members(groups)[x] + (if x == m then 1 else 0) {
      SetMembers(groups, m.designation, Singleton(m), x);
      assert multiset(Singleton(m).modules) == multiset{m};
    }
  }

  /** Without a configuration, of two records sharing a designation only the
      later one is grouped. */
  lemma SameDesignationLosesModule(a: Module, b: Module)
    requires !a.isGeneral && !b.isGeneral && a.designation == b.designation && a != b
    ensures Members(MemberGroups([a, b], [])) == multiset{b}
    ensures a !in Members(MemberGroups([a, b], []))
  {
    var first := Assign([], [], a);
    assert first == [(a.designation, Singleton(a))];
    assert [a, b][..1] == [a] && [a][..0] == [];
    assert AssignAll([], [], [a]) == first;
    assert AssignAll([], [], [a, b]) == Assign(first, [], b);
    var last := [(a.designation, Singleton(b))];
    assert Assign(first, [], b) == last;
    assert last[1..] == [];
    assert Members(last) == multiset{b};
    forall x ensures Members(MemberGroups([a, b], []))[x] == multiset{b}[x] {
      RecomputeAllMembers(last, x);
    }
  }

  // ---------------------------------------------------------------------------
  // The pass mark of a UE row (`createGroupedRow`)

  /** A UE row is held to the integration project's mark when its own name
      or the designation of one of its members names the project. */
  predicate UEIsProject(g: UEGroup)
  {
    || IsProjetIntegrationModule(g.name)
    || exists i | 0 <= i < |g.modules| :: IsProjetIntegrationModule(g.modules[i].designation)
  }

  /** The mark a UE row's mean must reach. */
  function UEPassingMark(g: UEGroup): (r: int)
    ensures r == 8 || r == 10
    ensures r == 10 <==> UEIsProject(g)
  {
    if UEIsProject(g) then 10 else 8
  }

  /** A UE row's status: none for the overall row; otherwise whether the mean
      reaches the row's mark. A group's mean is always a number, so the
      source's test for a null mean never fails. */
  function UEPasses(g: UEGroup): (r: Option<bool>)
    ensures r.None? <==> g.isGeneral
    ensures r == Some(true) ==> g.moyenne >= 8.0
    ensures !g.isGeneral && g.moyenne >= 10.0 ==> r == Some(true)
    ensures r.Some? ==> (r.value <==> g.moyenne >= (if UEIsProject(g) then 10.0 else 8.0))
  {
    if g.isGeneral then None else Some(g.moyenne >= UEPassingMark(g) as real)
  }

  /** A module in a group of its own gets the row status the module's own row
      shows; without an average its group shows the mean 0 and fails, where
      the module's own row shows no status. */
  lemma SingletonPasses(m: Module)
    ensures UEPassingMark(Singleton(m)) == PassingMark(m.designation)
    ensures m.moyenne.Some? ==> UEPasses(Singleton(m)) == ModulePasses(m)
    ensures m.moyenne.None? ==> UEPasses(Singleton(m)) == Some(false) && ModulePasses(m).None?
  {
    var g := Singleton(m);
    assert g.modules[0] == m;
  }

  /** A member that names the integration project holds the whole UE to the
      mark 10, and still does after a merge with any other group. */
  lemma ProjectMemberSetsMark(s: UEGroup, t: UEGroup, name: string, i: nat)
    requires i < |s.modules| && IsProjetIntegrationModule(s.modules[i].designation)
    ensures UEPassingMark(s) == 10
    ensures UEPassingMark(MergedGroup(s, t, name)) == 10
    ensures UEPassingMark(MergedGroup(t, s, name)) == 10
  {
    var a, b := MergedGroup(s, t, name), MergedGroup(t, s, name);
    assert a.modules[|t.modules| + i] == s.modules[i];
    assert b.modules[i] == s.modules[i];
  }

  // ---------------------------------------------------------------------------
  // mergeUEs and splitUE

  /** The name `mergeUEs` gives the merged UE: target first. */
  function MergedName(source: string, target: string): (n: string)
    ensures n != source && n != target
  {
    target + " + " + source
  }

  /** The configuration of a merged UE: its members by designation and credits. */
  function CatalogOf(mods: seq<Module>): (c: seq<CatalogModule>)
    ensures |c| == |mods|
    ensures forall i | 0 <= i < |mods| :: c[i] == CatalogModule(mods[i].designation, mods[i].credits, [])
  {
    seq(|mods|, i requires 0 <= i < |mods| => CatalogModule(mods[i].designation, mods[i].credits, []))
  }

  /** `groupedData` and `ueGroups` together. */
  datatype Layout = Layout(groups: Grouped, config: Config)

  /** Whether `mergeUEs` acts: both groups exist and neither is general. */
  predicate CanMerge(groups: Grouped, source: string, target: string)
  {
    && Lookup(groups, source).Some? && Lookup(groups, target).Some?
    && !Lookup(groups, source).value.isGeneral && !Lookup(groups, target).value.isGeneral
  }

  /** The merged group: members of the target then of the source, credits and
      weighted scores added, and the mean over the credits of the members that
      have an average (0 when there are none). */
  function MergedGroup(s: UEGroup, t: UEGroup, name: string): UEGroup
  {
    var mods := t.modules + s.modules;
    var ws := t.weightedScore + s.weightedScore;
    var vc := ValidCredits(mods);
    UEGroup(name, mods, t.totalCredits + s.totalCredits, ws, if vc > 0 then ws / vc as real else 0.0, false)
  }

  /** `mergeUEs(source, target)`. */
  function MergeUEs(layout: Layout, source: string, target: string): Layout
  {
    if !CanMerge(layout.groups, source, target) then layout
    else
      var s, t := Lookup(layout.groups, source).value, Lookup(layout.groups, target).value;
      var name := MergedName(source, target);
      var merged := MergedGroup(s, t, name);
      var groups := Delete(Delete(Set(layout.groups, name, merged), source), target);
      var info := UEConfig(CatalogOf(merged.modules), merged.totalCredits);
      var config := Delete(Delete(Set(layout.config, name, info), source), target);
      Layout(groups, config)
  }

  /** `splitUE`'s loop: each member, in order, gets a singleton group under its
      designation. */
  function SplitInto(groups: Grouped, mods: seq<Module>): Grouped
  {
    if mods == [] then groups
    else
      var m := mods[|mods| - 1];
      Set(SplitInto(groups, mods[..|mods| - 1]), m.designation, Singleton(m))
  }

  /** `splitUE(name)`: a missing or general group is left alone; otherwise the
      members get singleton groups and then the name is deleted from both
      dictionaries. */
  function SplitUE(layout: Layout, name: string): Layout
  {
    match Lookup(layout.groups, name) {
      case None => layout
      case Some(g) =>
        if g.isGeneral then layout
        else Layout(Delete(SplitInto(layout.groups, g.modules), name), Delete(layout.config, name))
    }
  }

  // ---------------------------------------------------------------------------
  // Properties of merge and split

  /** A merge of two real groups replaces both, in both dictionaries, by the
      merged UE holding the target's members then the source's. */
  lemma MergeEffect(layout: Layout, source: string, target: string)
    requires CanMerge(layout.groups, source, target)
    ensures var r := MergeUEs(layout, source, target);
      var s, t := Lookup(layout.groups, source).value, Lookup(layout.groups, target).value;
      var name := MergedName(source, target);
      && Lookup(r.groups, source) == None && Lookup(r.groups, target) == None
      && Lookup(r.config, source) == None && Lookup(r.config, target) == None
      && Lookup(r.groups, name) == Some(MergedGroup(s, t, name))
      && Lookup(r.groups, name).value.modules == t.modules + s.modules
      && Lookup(r.config, name).Some?
      && Lookup(r.config, name).value.totalCredits == t.totalCredits + s.totalCredits
      && Lookup(r.config, name).value.modules == CatalogOf(t.modules + s.modules)
  {
    var s, t := Lookup(layout.groups, source).value, Lookup(layout.groups, target).value;
    var name := MergedName(source, target);
    var merged := MergedGroup(s, t, name);
    var info := UEConfig(CatalogOf(merged.modules), merged.totalCredits);
    SetThenDeleteTwo(layout.groups, name, merged, source, target);
    SetThenDeleteTwo(layout.config, name, info, source, target);
  }

  /** The key order a merge leaves, in both dictionaries: the old keys
      without the two merged UEs, in their old order, and the merged name at
      the end (or at its old place, if that name was already a key). */
  lemma MergeKeyOrder(layout: Layout, source: string, target: string)
    requires CanMerge(layout.groups, source, target)
    ensures var r := MergeUEs(layout, source, target);
      var name := MergedName(source, target);
      && Keys(r.groups) == Without(Without(Keys(layout.groups), source), target)
           + (if name in Keys(layout.groups) then [] else [name])
      && Keys(r.config) == Without(Without(Keys(layout.config), source), target)
           + (if name in Keys(layout.config) then [] else [name])
  {
    var s, t := Lookup(layout.groups, source).value, Lookup(layout.groups, target).value;
    var name := MergedName(source, target);
    var merged := MergedGroup(s, t, name);
    var info := UEConfig(CatalogOf(merged.modules), merged.totalCredits);
    SetThenDeleteTwoKeys(layout.groups, name, merged, source, target);
    SetThenDeleteTwoKeys(layout.config, name, info, source, target);
  }

  /** A merge leaves every UE other than the two merged ones and the new one
      as it was, in both dictionaries. */
  lemma MergeKeepsOthers(layout: Layout, source: string, target: string, k: string)
    requires k != source && k != target && k != MergedName(source, target)
    ensures Lookup(MergeUEs(layout, source, target).groups, k) == Lookup(layout.groups, k)
    ensures Lookup(MergeUEs(layout, source, target).config, k) == Lookup(layout.config, k)
  {
    if CanMerge(layout.groups, source, target) {
      var s, t := Lookup(layout.groups, source).value, Lookup(layout.groups, target).value;
      var name := MergedName(source, target);
      var merged := MergedGroup(s, t, name);
      var info := UEConfig(CatalogOf(merged.modules), merged.totalCredits);
      SetThenDeleteTwo(layout.groups, name, merged, source, target);
      SetThenDeleteTwo(layout.config, name, info, source, target);
    }
  }

  /** The configuration a merge writes makes `getModuleCredits` give a merged
      member its own credits, when its designation is already in normal form,
      the members sharing its lower-cased name share its credits, and no UE
      other than the two merged ones lists that name. */
  lemma MergedCatalogCredits(layout: Layout, source: string, target: string, i: nat)
    requires CanMerge(layout.groups, source, target)
    requires var mods := Lookup(layout.groups, target).value.modules + Lookup(layout.groups, source).value.modules;
      && i < |mods| && Normalized(mods[i].designation)
      && (forall j | 0 <= j < |mods| && Lower(mods[j].designation) == Lower(mods[i].designation) ::
            mods[j].credits == mods[i].credits)
      && (forall e, j | 0 <= e < |layout.config| && layout.config[e].0 != source && layout.config[e].0 != target
            && 0 <= j < |layout.config[e].1.modules| ::
            Lower(layout.config[e].1.modules[j].name) != Lower(mods[i].designation))
    ensures var mods := Lookup(layout.groups, target).value.modules + Lookup(layout.groups, source).value.modules;
      GetModuleCredits(MergeUEs(layout, source, target).config, mods[i].designation) == mods[i].credits
  {
    var s, t := Lookup(layout.groups, source).value, Lookup(layout.groups, target).value;
    var name := MergedName(source, target);
    var merged := MergedGroup(s, t, name);
    var mods := merged.modules;
    var info := UEConfig(CatalogOf(mods), merged.totalCredits);
    assert MergeUEs(layout, source, target).config == Delete(Delete(Set(layout.config, name, info), source), target);
    var d := mods[i].designation;
    assert Lower(info.modules[i].name) == Lower(d);
    forall j | 0 <= j < |info.modules| && Lower(info.modules[j].name) == Lower(d)
      ensures info.modules[j].credits == mods[i].credits
    {
      assert info.modules[j] == CatalogModule(mods[j].designation, mods[j].credits, []);
    }
    MergedConfigCredits(layout.config, name, info, source, target, d, mods[i].credits);
  }

  /** The credit lookup in a configuration where the merged UE `name`
      replaced `source` and `target`. */
  lemma MergedConfigCredits(config: Config, name: string, info: UEConfig, source: string, target: string,
                            d: string, credits: int)
    requires name != source && name != target && Normalized(d)
    requires exists j | 0 <= j < |info.modules| :: Lower(info.modules[j].name) == Lower(d)
    requires forall j | 0 <= j < |info.modules| && Lower(info.modules[j].name) == Lower(d) :: info.modules[j].credits == credits
    requires forall e, j | 0 <= e < |config| && config[e].0 != source && config[e].0 != target
      && 0 <= j < |config[e].1.modules| :: Lower(config[e].1.modules[j].name) != Lower(d)
    ensures GetModuleCredits(Delete(Delete(Set(config, name, info), source), target), d) == credits
  {
    var r := Delete(Delete(Set(config, name, info), source), target);
    var key := Lower(d);
    NormalizeFixesNormalized(d);
    SetThenDeleteTwo(config, name, info, source, target);
    LookupIn(r, name);
    forall e, j | 0 <= e < |r| && r[e] != (name, info) && 0 <= j < |r[e].1.modules|
      ensures Lower(r[e].1.modules[j].name) != key
    {
      MergedConfigEntry(config, name, info, source, target, e);
      var e' :| 0 <= e' < |config| && config[e'] == r[e];
      assert config[e'].0 != source && config[e'].0 != target && j < |config[e'].1.modules|;
      assert Lower(config[e'].1.modules[j].name) != key;
    }
    ConfigCreditsFromOneUE(r, key, name, info, credits);
  }

  /** An entry a merge leaves in `ueGroups`, other than the merged UE, is an
      entry of the old configuration under neither operand's name. */
  lemma MergedConfigEntry<K(!new), V>(config: Dict<K, V>, name: K, info: V, source: K, target: K, e: nat)
    requires e < |Delete(Delete(Set(config, name, info), source), target)|
    requires Delete(Delete(Set(config, name, info), source), target)[e] != (name, info)
    ensures var x := Delete(Delete(Set(config, name, info), source), target)[e];
      x in config && x.0 != source && x.0 != target
  {
    var c1 := Set(config, name, info);
    var c2 := Delete(c1, source);
    DeleteEntry(c2, target, e);
    var e2 :| 0 <= e2 < |c2| && c2[e2] == Delete(c2, target)[e];
    DeleteEntry(c1, source, e2);
    var e1 :| 0 <= e1 < |c1| && c1[e1] == c2[e2];
    SetEntry(config, name, info, e1);
  }

  /** When one UE alone lists a name, and all its modules of that name carry
      the same credits, the credit search returns those credits. */
  lemma ConfigCreditsFromOneUE(config: Config, key: string, name: string, info: UEConfig, credits: int)
    requires (name, info) in config
    requires exists j | 0 <= j < |info.modules| :: Lower(info.modules[j].name) == key
    requires forall j | 0 <= j < |info.modules| && Lower(info.modules[j].name) == key :: info.modules[j].credits == credits
    requires forall e, j | 0 <= e < |config| && config[e] != (name, info) && 0 <= j < |config[e].1.modules| ::
      Lower(config[e].1.modules[j].name) != key
    ensures ConfigCredits(config, key) == Some(credits)
  {
    var e0 :| 0 <= e0 < |config| && config[e0] == (name, info);
    var j0 :| 0 <= j0 < |info.modules| && Lower(info.modules[j0].name) == key;
    assert Lower(config[e0].1.modules[j0].name) == key;
  }

  /** A merge on a missing or general group changes nothing. */
  lemma MergeNoOp(layout: Layout, source: string, target: string)
    requires Lookup(layout.groups, source).None? || Lookup(layout.groups, target).None?
      || Lookup(layout.groups, source).value.isGeneral || Lookup(layout.groups, target).value.isGeneral
    ensures MergeUEs(layout, source, target) == layout
  {
  }

  /** Merging keeps both dictionaries free of duplicate keys. */
  lemma MergeKeepsDistinct(layout: Layout, source: string, target: string)
    requires DistinctKeys(layout.groups) && DistinctKeys(layout.config)
    ensures var r := MergeUEs(layout, source, target);
      DistinctKeys(r.groups) && DistinctKeys(r.config)
  {
    if CanMerge(layout.groups, source, target) {
      var s, t := Lookup(layout.groups, source).value, Lookup(layout.groups, target).value;
      var name := MergedName(source, target);
      var merged := MergedGroup(s, t, name);
      var g1 := Set(layout.groups, name, merged);
      SetDistinct(layout.groups, name, merged);
      DeleteDistinct(g1, source);
      DeleteDistinct(Delete(g1, source), target);
      var info := UEConfig(CatalogOf(merged.modules), merged.totalCredits);
      var c1 := Set(layout.config, name, info);
      SetDistinct(layout.config, name, info);
      DeleteDistinct(c1, source);
      DeleteDistinct(Delete(c1, source), target);
    }
  }

  /** When every member is graded and both weighted scores are current, the
      merged mean is the weighted mean of all members, as regrouping would
      compute it. */
  lemma MergeMeanWhenAllGraded(s: UEGroup, t: UEGroup, name: string)
    requires s.weightedScore == ScoreSum(s.modules) && t.weightedScore == ScoreSum(t.modules)
    requires forall i | 0 <= i < |t.modules + s.modules| :: (t.modules + s.modules)[i].moyenne.Some?
    ensures MergedGroup(s, t, name).moyenne == RecomputeGroup(MergedGroup(s, t, name)).moyenne
  {
    var mods := t.modules + s.modules;
    SumsConcat(t.modules, s.modules);
    ValidCreditsAllGraded(mods);
  }

  /** With an ungraded member the two means part: a graded member (10, 2
      credits) merged with an ungraded one (2 credits) gets mean 10 from
      `mergeUEs`, but 5 once the groups are rebuilt. */
  lemma MergeMeanIgnoresUngraded(a: Module, b: Module)
    requires a.moyenne == Some(10.0) && a.credits == 2
    requires b.moyenne.None? && b.credits == 2
    ensures var m := MergedGroup(Singleton(b), Singleton(a), "x");
      m.moyenne == 10.0 && RecomputeGroup(m).moyenne == 5.0
  {
    var mods := [a] + [b];
    assert [a] == [] + [a];
    SumsAppend([], a);
    SumsAppend([a], b);
    assert Singleton(a).modules + Singleton(b).modules == [a] + [b];
  }

  /** Members of a split group whose designation no later member shares get
      their own singleton group. */
  lemma {:induction false} SplitIntoPlaces(groups: Grouped, mods: seq<Module>, i: nat)
    requires i < |mods|
    requires forall j | i < j < |mods| :: mods[j].designation != mods[i].designation
    ensures Lookup(SplitInto(groups, mods), mods[i].designation) == Some(Singleton(mods[i]))
  {
    if i < |mods| - 1 {
      SplitIntoPlaces(groups, mods[..|mods| - 1], i);
    }
  }

  /** Keys that are no member's designation are untouched by the split loop. */
  lemma {:induction false} SplitIntoOthers(groups: Grouped, mods: seq<Module>, k: string)
    requires forall j | 0 <= j < |mods| :: mods[j].designation != k
    ensures Lookup(SplitInto(groups, mods), k) == Lookup(groups, k)
  {
    if mods != [] {
      SplitIntoOthers(groups, mods[..|mods| - 1], k);
    }
  }

  /** After a split the name is gone from both dictionaries; each member
      whose designation differs from the name and is not repeated later has
      a singleton group; UEs that are no member's designation are unchanged. */
  lemma SplitEffect(layout: Layout, name: string)
    requires Lookup(layout.groups, name).Some? && !Lookup(layout.groups, name).value.isGeneral
    ensures var r := SplitUE(layout, name);
      var mods := Lookup(layout.groups, name).value.modules;
      && Lookup(r.groups, name) == None && Lookup(r.config, name) == None
      && (forall i | 0 <= i < |mods| && mods[i].designation != name
            && (forall j | i < j < |mods| :: mods[j].designation != mods[i].designation) ::
            Lookup(r.groups, mods[i].designation) == Some(Singleton(mods[i])))
      && (forall k | k != name && (forall j | 0 <= j < |mods| :: mods[j].designation != k) ::
            Lookup(r.groups, k) == Lookup(layout.groups, k) && Lookup(r.config, k) == Lookup(layout.config, k))
  {
    var mods := Lookup(layout.groups, name).value.modules;
    forall i | 0 <= i < |mods| && mods[i].designation != name
      && (forall j | i < j < |mods| :: mods[j].designation != mods[i].designation)
      ensures Lookup(SplitInto(layout.groups, mods), mods[i].designation) == Some(Singleton(mods[i]))
    {
      SplitIntoPlaces(layout.groups, mods, i);
    }
    forall k | k != name && (forall j | 0 <= j < |mods| :: mods[j].designation != k)
      ensures Lookup(SplitInto(layout.groups, mods), k) == Lookup(layout.groups, k)
    {
      SplitIntoOthers(layout.groups, mods, k);
    }
  }

  /** `splitUE`'s loop keeps the old keys in place and only appends keys
      that are designations of the split members. */
  lemma {:induction false} SplitIntoKeys(groups: Grouped, mods: seq<Module>)
    ensures Keys(groups) <= Keys(SplitInto(groups, mods))
    ensures forall i | |groups| <= i < |SplitInto(groups, mods)| ::
      exists j | 0 <= j < |mods| :: mods[j].designation == Keys(SplitInto(groups, mods))[i]
  {
    if mods != [] {
      var init, m := mods[..|mods| - 1], mods[|mods| - 1];
      var before := SplitInto(groups, init);
      var after := Set(before, m.designation, Singleton(m));
      SplitIntoKeys(groups, init);
      assert SplitInto(groups, mods) == after;
      forall i | |groups| <= i < |after|
        ensures exists j | 0 <= j < |mods| :: mods[j].designation == Keys(after)[i]
      {
        if i < |before| {
          var j :| 0 <= j < |init| && init[j].designation == Keys(before)[i];
          assert mods[j] == init[j] && Keys(after)[i] == Keys(before)[i];
        } else {
          assert Keys(after) == Keys(before) + [m.designation];
          assert mods[|mods| - 1].designation == Keys(after)[i];
        }
      }
    }
  }

  /** A key sequence that extends `prefix` with designations of `mods` is
      `prefix` followed by those designations. */
  lemma DesignationSuffix(prefix: seq<string>, ks: seq<string>, mods: seq<Module>)
    requires prefix <= ks
    requires forall i | |prefix| <= i < |ks| :: exists j | 0 <= j < |mods| :: mods[j].designation == ks[i]
    ensures ks == prefix + ks[|prefix|..]
    ensures forall x | x in ks[|prefix|..] :: exists j | 0 <= j < |mods| :: mods[j].designation == x
  {
    var n := |prefix|;
    forall x | x in ks[n..] ensures exists j | 0 <= j < |mods| :: mods[j].designation == x {
      var p :| 0 <= p < |ks| - n && ks[n..][p] == x;
      assert ks[n + p] == x;
    }
  }

  /** After the loop and the `delete`, the old keys keep their order, the
      appended ones are designations of the members, and the name is gone. */
  lemma SplitGroupsKeyOrder(groups: Grouped, mods: seq<Module>, name: string)
    ensures exists extra ::
      && Keys(Delete(SplitInto(groups, mods), name)) == Without(Keys(groups) + extra, name)
      && forall x | x in extra :: exists j | 0 <= j < |mods| :: mods[j].designation == x
  {
    var split := SplitInto(groups, mods);
    SplitIntoKeys(groups, mods);
    DesignationSuffix(Keys(groups), Keys(split), mods);
    KeysDelete(split, name);
    var extra := Keys(split)[|groups|..];
    assert Keys(Delete(split, name)) == Without(Keys(groups) + extra, name);
  }

  /** The key order a split leaves: `ueGroups` loses the name and keeps its
      order; in `groupedData` the old keys keep their order, the members'
      new designations follow them, and then the name is removed. */
  lemma SplitKeyOrder(layout: Layout, name: string)
    requires Lookup(layout.groups, name).Some? && !Lookup(layout.groups, name).value.isGeneral
    ensures var r := SplitUE(layout, name);
      var mods := Lookup(layout.groups, name).value.modules;
      && Keys(r.config) == Without(Keys(layout.config), name)
      && exists extra ::
           && Keys(r.groups) == Without(Keys(layout.groups) + extra, name)
           && forall x | x in extra :: exists j | 0 <= j < |mods| :: mods[j].designation == x
  {
    var mods := Lookup(layout.groups, name).value.modules;
    assert SplitUE(layout, name) == Layout(Delete(SplitInto(layout.groups, mods), name), Delete(layout.config, name));
    KeysDelete(layout.config, name);
    SplitGroupsKeyOrder(layout.groups, mods, name);
  }

  /** Splitting a singleton group that sits under its own module's
      designation removes that module from `groupedData` altogether: its new
      singleton is created under the same key and then deleted. */
  lemma SplitOwnSingletonLosesModule(layout: Layout, m: Module)
    requires Lookup(layout.groups, m.designation) == Some(Singleton(m))
    ensures var r := SplitUE(layout, m.designation);
      && Lookup(r.groups, m.designation) == None
      && forall k | k != m.designation :: Lookup(r.groups, k) == Lookup(layout.groups, k)
  {
    var g := Singleton(m);
    assert g.modules[..0] == [];
    var placed := Set(layout.groups, m.designation, g);
    assert SplitInto(layout.groups, g.modules) == placed;
    forall k | k != m.designation
      ensures Lookup(Delete(placed, m.designation), k) == Lookup(layout.groups, k)
    {
      assert Lookup(placed, k) == Lookup(layout.groups, k);
    }
  }

  /** A split on a missing or general group changes nothing. */
  lemma SplitNoOp(layout: Layout, name: string)
    requires Lookup(layout.groups, name).None? || Lookup(layout.groups, name).value.isGeneral
    ensures SplitUE(layout, name) == layout
  {
  }

  /** Merging two singleton groups and splitting the merged UE gives back
      both singletons under their own designations: `groupedData` is as it
      was, apart from the merged name, which is gone. The configuration is
      not restored: the two singletons' entries stay deleted. */
  lemma MergeThenSplit(layout: Layout, a: Module, b: Module)
    requires a.designation != b.designation
    requires Lookup(layout.groups, a.designation) == Some(Singleton(a))
    requires Lookup(layout.groups, b.designation) == Some(Singleton(b))
    ensures var name := MergedName(a.designation, b.designation);
      var r := SplitUE(MergeUEs(layout, a.designation, b.designation), name);
      && Lookup(r.groups, name) == None
      && (forall k | k != name :: Lookup(r.groups, k) == Lookup(layout.groups, k))
      && Lookup(r.config, name) == None
      && Lookup(r.config, a.designation) == None && Lookup(r.config, b.designation) == None
      && (forall k | k != name && k != a.designation && k != b.designation ::
            Lookup(r.config, k) == Lookup(layout.config, k))
  {
    var sa, tb := a.designation, b.designation;
    var name := MergedName(sa, tb);
    var merged := MergeUEs(layout, sa, tb);
    MergeSingletons(layout, a, b);
    SplitPair(merged, name, a, b);
    var r := SplitUE(merged, name);
    forall k | k != name && k != sa && k != tb
      ensures Lookup(r.groups, k) == Lookup(layout.groups, k)
      ensures Lookup(r.config, k) == Lookup(layout.config, k)
    {
      MergeKeepsOthers(layout, sa, tb, k);
    }
  }

  /** The key order after the same round trip: the other keys keep their
      order, the merged name is gone, and the two singletons come back at
      the end, the target's first. */
  lemma MergeThenSplitOrder(layout: Layout, a: Module, b: Module)
    requires a.designation != b.designation
    requires Lookup(layout.groups, a.designation) == Some(Singleton(a))
    requires Lookup(layout.groups, b.designation) == Some(Singleton(b))
    ensures var name := MergedName(a.designation, b.designation);
      var r := SplitUE(MergeUEs(layout, a.designation, b.designation), name);
      Keys(r.groups)
        == Without(Without(Without(Keys(layout.groups), a.designation), b.designation), name)
           + [b.designation, a.designation]
  {
    var sa, tb := a.designation, b.designation;
    var name := MergedName(sa, tb);
    MergeSingletons(layout, a, b);
    MergeKeyOrder(layout, sa, tb);
    SplitSingletonsKeys(MergeUEs(layout, sa, tb), name, a, b);
    WithoutAppended(Without(Without(Keys(layout.groups), sa), tb),
      if name in Keys(layout.groups) then [] else [name], name);
  }

  /** Splitting a group of `b` then `a` whose designations are not keys yet. */
  lemma SplitSingletonsKeys(layout: Layout, name: string, a: Module, b: Module)
    requires Lookup(layout.groups, name).Some? && !Lookup(layout.groups, name).value.isGeneral
    requires Lookup(layout.groups, name).value.modules == [b, a]
    requires a.designation != b.designation && a.designation != name && b.designation != name
    requires Lookup(layout.groups, a.designation) == None && Lookup(layout.groups, b.designation) == None
    ensures Keys(SplitUE(layout, name).groups) == Without(Keys(layout.groups), name) + [b.designation, a.designation]
  {
    SplitPairKeys(layout.groups, name, a, b);
  }

  /** Splitting `b` then `a` out of a group appends their designations, when
      new, and deleting the group's name keeps the order of the rest. */
  lemma SplitPairKeys(groups: Grouped, name: string, a: Module, b: Module)
    requires a.designation != b.designation && a.designation != name && b.designation != name
    requires Lookup(groups, a.designation) == None && Lookup(groups, b.designation) == None
    ensures Keys(Delete(SplitInto(groups, [b, a]), name))
      == Without(Keys(groups), name) + [b.designation, a.designation]
  {
    assert [b, a][..1] == [b] && [b][..0] == [];
    var first := Set(groups, b.designation, Singleton(b));
    assert SplitInto(groups, [b]) == first;
    assert SplitInto(groups, [b, a]) == Set(first, a.designation, Singleton(a));
    SetTwoThenDeleteKeys(groups, b.designation, Singleton(b), a.designation, Singleton(a), name);
  }

  /** Merging two singleton groups gives one group holding the target's
      module then the source's, and drops both from the configuration. */
  lemma MergeSingletons(layout: Layout, a: Module, b: Module)
    requires a.designation != b.designation
    requires Lookup(layout.groups, a.designation) == Some(Singleton(a))
    requires Lookup(layout.groups, b.designation) == Some(Singleton(b))
    ensures var name := MergedName(a.designation, b.designation);
      var r := MergeUEs(layout, a.designation, b.designation);
      && Lookup(r.groups, name).Some? && !Lookup(r.groups, name).value.isGeneral
      && Lookup(r.groups, name).value.modules == [b, a]
      && Lookup(r.groups, a.designation) == None && Lookup(r.groups, b.designation) == None
      && Lookup(r.config, a.designation) == None && Lookup(r.config, b.designation) == None
  {
    MergeEffect(layout, a.designation, b.designation);
  }

  /** Splitting a group whose members are `b` then `a`, under distinct
      designations other than the group's name, puts each under its own
      designation and leaves the other keys alone. */
  lemma SplitPair(layout: Layout, name: string, a: Module, b: Module)
    requires Lookup(layout.groups, name).Some? && !Lookup(layout.groups, name).value.isGeneral
    requires Lookup(layout.groups, name).value.modules == [b, a]
    requires a.designation != b.designation && a.designation != name && b.designation != name
    ensures var r := SplitUE(layout, name);
      && Lookup(r.groups, name) == None && Lookup(r.config, name) == None
      && Lookup(r.groups, a.designation) == Some(Singleton(a))
      && Lookup(r.groups, b.designation) == Some(Singleton(b))
      && Lookup(r.config, a.designation) == Lookup(layout.config, a.designation)
      && Lookup(r.config, b.designation) == Lookup(layout.config, b.designation)
      && forall k | k != name && k != a.designation && k != b.designation ::
           Lookup(r.groups, k) == Lookup(layout.groups, k) && Lookup(r.config, k) == Lookup(layout.config, k)
  {
    SplitPairGroups(layout.groups, name, a, b);
  }

  lemma SplitPairGroups(groups: Grouped, name: string, a: Module, b: Module)
    requires a.designation != b.designation && a.designation != name && b.designation != name
    ensures var r := Delete(SplitInto(groups, [b, a]), name);
      && Lookup(r, name) == None
      && Lookup(r, a.designation) == Some(Singleton(a))
      && Lookup(r, b.designation) == Some(Singleton(b))
      && forall k | k != name && k != a.designation && k != b.designation :: Lookup(r, k) == Lookup(groups, k)
  {
    assert [b, a][..1] == [b] && [b][..0] == [];
    var first := Set(groups, b.designation, Singleton(b));
    assert SplitInto(groups, [b]) == first;
    assert SplitInto(groups, [b, a]) == Set(first, a.designation, Singleton(a));
  }

  // ---------------------------------------------------------------------------
  // Keys stay unique

  lemma {:induction false} InitialGroupsDistinct(config: Config)
    ensures DistinctKeys(InitialGroups(config))
  {
    if config != [] {
      var init, last := config[..|config| - 1], config[|config| - 1];
      InitialGroupsDistinct(init);
      SetDistinct(InitialGroups(init), last.0, EmptyGroup(last.0, last.1));
    }
  }

  lemma {:induction false} AssignAllDistinct(groups: Grouped, config: Config, data: seq<Module>)
    requires ConfigKeysIn(config, groups) && DistinctKeys(groups)
    ensures DistinctKeys(AssignAll(groups, config, data))
  {
    if data != [] {
      var prev := AssignAll(groups, config, data[..|data| - 1]);
      AssignAllDistinct(groups, config, data[..|data| - 1]);
      var m := data[|data| - 1];
      if !m.isGeneral {
        match FirstMatchingUE(config, m) {
          case Some(e) =>
            var k := config[e].0;
            SetDistinct(prev, k, AppendMember(Lookup(prev, k).value, m));
          case None =>
            SetDistinct(prev, m.designation, Singleton(m));
        }
      }
    }
  }

  /** `groupedData` never holds a key twice. */
  lemma GroupModulesDistinct(data: seq<Module>, config: Config)
    ensures DistinctKeys(GroupModulesByUE(data, config))
  {
    InitialGroupsCover(config);
    InitialGroupsDistinct(config);
    var placed := AssignAll(InitialGroups(config), config, data);
    AssignAllDistinct(InitialGroups(config), config, data);
    var groups := MemberGroups(data, config);
    assert DistinctKeys(groups) by {
      forall i, j | 0 <= i < j < |groups| ensures groups[i].0 != groups[j].0 {
        assert groups[i].0 == placed[i].0 && groups[j].0 == placed[j].0;
      }
    }
    if |config| > 0 && UECredits(groups) > 0 {
      SetDistinct(groups, GeneralUEName, GeneralUE(UEScore(groups), UECredits(groups)));
    }
  }

  lemma {:induction false} SplitIntoDistinct(groups: Grouped, mods: seq<Module>)
    requires DistinctKeys(groups)
    ensures DistinctKeys(SplitInto(groups, mods))
  {
    if mods != [] {
      var m := mods[|mods| - 1];
      SplitIntoDistinct(groups, mods[..|mods| - 1]);
      SetDistinct(SplitInto(groups, mods[..|mods| - 1]), m.designation, Singleton(m));
    }
  }

  /** Splitting keeps both dictionaries free of duplicate keys. */
  lemma SplitKeepsDistinct(layout: Layout, name: string)
    requires DistinctKeys(layout.groups) && DistinctKeys(layout.config)
    ensures DistinctKeys(SplitUE(layout, name).groups) && DistinctKeys(SplitUE(layout, name).config)
  {
    match Lookup(layout.groups, name) {
      case None =>
      case Some(g) =>
        if !g.isGeneral {
          SplitIntoDistinct(layout.groups, g.modules);
          DeleteDistinct(SplitInto(layout.groups, g.modules), name);
          DeleteDistinct(layout.config, name);
        }
    }
  }
}
