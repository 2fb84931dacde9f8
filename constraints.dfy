/**
 * The constraint model of the pairing engine: participants, forced pairs
 * (`fixed`) and blocked pairs (`block`), and `load_data`, which turns the
 * parsed configuration into them.
 */
module Constraints {
  import opened Collections

  /** A Python dict keyed by participant: its entries and its insertion order. */
  datatype Dict<V> = Dict(keys: seq<string>, entries: map<string, V>) {
    /** The order lists every key exactly once, as a Python dict's does. */
    predicate Ordered() {
      Distinct(keys) && Elems(keys) == entries.Keys
    }
  }

  /** `fixed`: participant -> the participant they must be given. */
  type ForceTable = Dict<string>

  /** `fixed[k] = v`: a new key goes last in the order, an existing key keeps its place. */
  function Put(t: ForceTable, k: string, v: string): (r: ForceTable)
    ensures r.entries == t.entries[k := v]
    ensures r.keys == if k in t.entries then t.keys else t.keys + [k]
  {
    if k in t.entries then Dict(t.keys, t.entries[k := v])
    else Dict(t.keys + [k], t.entries[k := v])
  }

  /** `fixed[k] = v` keeps a well-formed dict well formed. */
  lemma PutOrdered(t: ForceTable, k: string, v: string)
    requires t.Ordered()
    ensures Put(t, k, v).Ordered()
  {
    if k !in t.entries {
      assert k !in t.keys;
      assert Elems(t.keys + [k]) == Elems(t.keys) + {k};
    }
  }

  /** `fixed.values()`: the forced targets in key order. */
  function Values(t: ForceTable): (vs: seq<string>)
    requires t.Ordered()
    ensures |vs| == |t.keys|
    ensures forall i :: 0 <= i < |t.keys| ==> vs[i] == t.entries[t.keys[i]]
  {
    seq(|t.keys|, i requires 0 <= i < |t.keys| => assert t.keys[i] in Elems(t.keys); t.entries[t.keys[i]])
  }

  /** `block`: participant -> the participants they must not be given. */
  type Block = map<string, set<string>>

  /** The participants `who` must not be given; a missing key blocks nobody. */
  function BlockOf(b: Block, who: string): set<string> {
    if who in b then b[who] else {}
  }

  /** `block[who].add(pick)`, or `block[who] = set([pick])` when `who` has no entry yet. */
  function AddBlock(b: Block, who: string, pick: string): (r: Block)
    ensures r.Keys == b.Keys + {who}
  {
    if who in b then b[who := b[who] + {pick}] else b[who := {pick}]
  }

  /** A `block` value as parsed: a single name, or a list of names. */
  datatype BlockValue = Single(name: string) | Several(names: seq<string>)

  /** `value = [value]` when it is not a list, then `set(value)`. */
  function Normalize(v: BlockValue): (s: set<string>)
    ensures v.Single? ==> s == {v.name}
    ensures v.Several? ==> forall n :: n in s <==> n in v.names
  {
    match v
    case Single(n) => {n}
    case Several(ns) => Elems(ns)
  }

  /** The parsed configuration file: the objects are dicts, the two-way rules lists of lists. */
  datatype Config = Config(
    names: seq<string>,
    force: ForceTable,
    block: Dict<BlockValue>,
    twowayForce: seq<seq<string>>,
    twowayBlock: seq<seq<string>>)

  /** The three structures `load_data` returns. */
  datatype Loaded = Loaded(names: seq<string>, fixed: ForceTable, block: Block)

  /** The configuration section an error message names. */
  datatype Section = InForce | InBlock | InTwowayForce | InTwowayBlock

  /** Why loading stops; each is a `sys.exit` in the source except `ShortPair`, an `IndexError`. */
  datatype LoadError =
    | NotParticipant(name: string, section: Section)
    | InvalidParticipant(name: string)
    | ConflictingForce(left: string, right: string)
    | ShortPair(section: Section, index: nat)

  datatype Result<T, E> = Ok(value: T) | Err(error: E)

  /** `check_name`: an error exactly when `name` is not a participant. */
  function CheckName(name: string, names: seq<string>, member: Option<Section>): (r: Option<LoadError>)
    ensures r.None? <==> name in names
    ensures r.Some? && member.Some? ==> r.value == NotParticipant(name, member.value)
    ensures r.Some? && member.None? ==> r.value == InvalidParticipant(name)
  {
    if name in names then None
    else if member.Some? then Some(NotParticipant(name, member.value))
    else Some(InvalidParticipant(name))
  }

  // ---------------------------------------------------------------------
  // Specification of load_data

  /** A two-way rule has at least the two entries `[0]` and `[1]` that are read. */
  predicate HasPair(p: seq<string>) { |p| >= 2 }

  /** The two sides of one rule. */
  ghost function RuleMembers(p: seq<string>): set<string> {
    if HasPair(p) then {p[0], p[1]} else {}
  }

  /** The participants the single rule `p` pairs `k` with. */
  ghost function RulePartners(p: seq<string>, k: string): set<string> {
    if !HasPair(p) then {}
    else (if p[0] == k then {p[1]} else {}) + (if p[1] == k then {p[0]} else {})
  }

  /** Everyone named by the first two entries of some rule. */
  ghost function Members(ps: seq<seq<string>>): set<string> {
    if ps == [] then {} else Members(ps[..|ps| - 1]) + RuleMembers(ps[|ps| - 1])
  }

  /** The participants a list of two-way rules pairs `k` with, in either direction. */
  ghost function Partners(ps: seq<seq<string>>, k: string): set<string> {
    if ps == [] then {} else Partners(ps[..|ps| - 1], k) + RulePartners(ps[|ps| - 1], k)
  }

  /** The keys two-way forces add to `fixed`, in insertion order. */
  ghost function PairOrder(ps: seq<seq<string>>): seq<string> {
    if ps == [] then []
    else
      var last := ps[|ps| - 1];
      PairOrder(ps[..|ps| - 1])
        + if !HasPair(last) then [] else if last[0] == last[1] then [last[0]] else [last[0], last[1]]
  }

  /** `fixed` sends the two sides of the rule `p` to each other. */
  ghost predicate ForcedBothWays(t: map<string, string>, p: seq<string>) {
    HasPair(p) && p[0] in t && p[1] in t && t[p[0]] == p[1] && t[p[1]] == p[0]
  }

  /** The keys of `fixed` when the `i`-th two-way force is checked, `forced` being the one-way keys. */
  ghost function ForcedBefore(forced: set<string>, tf: seq<seq<string>>, i: nat): set<string>
    requires i <= |tf|
  {
    forced + Members(tf[..i])
  }

  /** The block set given for `k` by the one-way rules. */
  ghost function InitialBlock(cfg: Config, k: string): set<string> {
    if k in cfg.block.entries then Normalize(cfg.block.entries[k]) else {}
  }

  /** Every key and value of the one-way forces is a participant. */
  ghost predicate ForceNamesValid(names: seq<string>, force: ForceTable) {
    forall k :: k in force.entries ==> k in names && force.entries[k] in names
  }

  /** Every key of the one-way blocks, and everyone it blocks, is a participant. */
  ghost predicate BlockNamesValid(names: seq<string>, raw: Dict<BlockValue>) {
    forall k :: k in raw.entries ==> k in names && Normalize(raw.entries[k]) <= Elems(names)
  }

  /** A two-way rule names two participants. */
  predicate PairNamed(names: seq<string>, p: seq<string>) {
    HasPair(p) && p[0] in names && p[1] in names
  }

  /** Neither side of the `i`-th two-way force is a key of `fixed` when it is added. */
  ghost predicate PairUnforced(forced: set<string>, ps: seq<seq<string>>, i: nat)
    requires i < |ps| && HasPair(ps[i])
  {
    ps[i][0] !in ForcedBefore(forced, ps, i) && ps[i][1] !in ForcedBefore(forced, ps, i)
  }

  /** Every two-way rule names two participants; with `forced`, neither side is forced already. */
  ghost predicate TwowayValid(names: seq<string>, ps: seq<seq<string>>, forced: Option<set<string>>) {
    forall i :: 0 <= i < |ps| ==> PairNamed(names, ps[i]) && (forced.Some? ==> PairUnforced(forced.value, ps, i))
  }

  /** Everything `load_data` checks. */
  ghost predicate Loadable(cfg: Config) {
    && ForceNamesValid(cfg.names, cfg.force) && BlockNamesValid(cfg.names, cfg.block)
    && TwowayValid(cfg.names, cfg.twowayForce, Some(cfg.force.entries.Keys))
    && TwowayValid(cfg.names, cfg.twowayBlock, None)
  }

  /** `name` occurs in the section of the configuration an error message names. */
  ghost predicate MentionedIn(cfg: Config, name: string, section: Section) {
    match section
    case InForce => name in cfg.force.entries.Keys || name in cfg.force.entries.Values
    case InBlock =>
      name in cfg.block.entries.Keys || exists k :: k in cfg.block.entries && name in Normalize(cfg.block.entries[k])
    case InTwowayForce => name in Members(cfg.twowayForce)
    case InTwowayBlock => name in Members(cfg.twowayBlock)
  }

  /** Every participant the constraints mention is in `names`. */
  ghost predicate WithinNames(l: Loaded) {
    && (forall k :: k in l.fixed.entries ==> k in l.names && l.fixed.entries[k] in l.names)
    && (forall k :: k in l.block ==> k in l.names && l.block[k] <= Elems(l.names))
  }

  /** What the two-way forces leave in `fixed` (`t`), given the one-way forces `base`. */
  ghost predicate ForcesApplied(names: seq<string>, base: ForceTable, tf: seq<seq<string>>, t: ForceTable) {
    && t.Ordered()
    && t.entries.Keys == base.entries.Keys + Members(tf)
    && t.keys == base.keys + PairOrder(tf)
    && (forall k :: k in t.entries ==> t.entries[k] in names)
    && (forall k :: k in base.entries ==> t.entries[k] == base.entries[k])
    && (forall j :: 0 <= j < |tf| ==> ForcedBothWays(t.entries, tf[j]))
  }

  /** What the two-way blocks leave in `block` (`b`), given the one-way blocks `base`. */
  ghost predicate BlocksApplied(base: Block, tb: seq<seq<string>>, b: Block) {
    && b.Keys == base.Keys + Members(tb)
    && forall k :: BlockOf(b, k) == BlockOf(base, k) + Partners(tb, k)
  }

  /**
   * `e` is a genuine fault of the two-way rules `ps` of `section`: a side that
   * is not a participant, a rule too short to have two sides, or (for forces,
   * `forced` being the one-way keys) a rule whose side is already forced.
   */
  ghost predicate TwowayFault(names: seq<string>, ps: seq<seq<string>>, forced: Option<set<string>>, section: Section, e: LoadError) {
    match e
    case NotParticipant(name, s) => s == section && name !in names && name in Members(ps)
    case ConflictingForce(l, r) =>
      && forced.Some?
      && exists i :: 0 <= i < |ps| && HasPair(ps[i]) && ps[i][0] == l && ps[i][1] == r
           && (l in ForcedBefore(forced.value, ps, i) || r in ForcedBefore(forced.value, ps, i))
    case ShortPair(s, index) => s == section && index < |ps| && !HasPair(ps[index])
    case InvalidParticipant(_) => false
  }

  /** `e` is a genuine fault of the configuration, in the section it names. */
  ghost predicate LoadFault(cfg: Config, e: LoadError) {
    match e
    case NotParticipant(name, s) => name !in cfg.names && MentionedIn(cfg, name, s)
    case ConflictingForce(_, _) =>
      TwowayFault(cfg.names, cfg.twowayForce, Some(cfg.force.entries.Keys), InTwowayForce, e)
    case ShortPair(s, _) =>
      || TwowayFault(cfg.names, cfg.twowayForce, None, InTwowayForce, e)
      || TwowayFault(cfg.names, cfg.twowayBlock, None, InTwowayBlock, e)
    case InvalidParticipant(_) => false
  }

  /** `block` holds the one-way blocks of `cfg` plus everyone the two-way blocks pair with. */
  ghost predicate BlocksOver(cfg: Config, b: Block) {
    && b.Keys == cfg.block.entries.Keys + Members(cfg.twowayBlock)
    && forall k :: BlockOf(b, k) == InitialBlock(cfg, k) + Partners(cfg.twowayBlock, k)
  }

  /** What `load_data` returns for a loadable configuration. */
  ghost predicate LoadedFrom(cfg: Config, l: Loaded) {
    && l.names == cfg.names
    && WithinNames(l)
    && ForcesApplied(cfg.names, cfg.force, cfg.twowayForce, l.fixed)
    && BlocksOver(cfg, l.block)
  }

  /** Rule `p` written into `fixed` both ways, `fixed[l] = r` then `fixed[r] = l`; a short rule changes nothing. */
  function ForceStep(t: ForceTable, p: seq<string>): ForceTable {
    if HasPair(p) then Put(Put(t, p[0], p[1]), p[1], p[0]) else t
  }

  /** Rule `p` added to `block` both ways; a short rule changes nothing. */
  function BlockStep(b: Block, p: seq<string>): Block {
    if HasPair(p) then AddBlock(AddBlock(b, p[0], p[1]), p[1], p[0]) else b
  }

  /** `fixed` after the first `i` two-way force rules are written into `base`, in order. */
  ghost function TwowayForced(base: ForceTable, ps: seq<seq<string>>, i: nat): ForceTable
    requires i <= |ps|
  {
    if i == 0 then base else ForceStep(TwowayForced(base, ps, i - 1), ps[i - 1])
  }

  /** `block` after the first `i` two-way block rules are added to `base`, in order. */
  ghost function TwowayBlocked(base: Block, ps: seq<seq<string>>, i: nat): Block
    requires i <= |ps|
  {
    if i == 0 then base else BlockStep(TwowayBlocked(base, ps, i - 1), ps[i - 1])
  }

  /**
   * The two-way-force loop of `load_data` from rule `i` on, `t` being `fixed`
   * so far: it stops at the first rule that fails `CheckPair` or has a side
   * that is already a key of `fixed`.
   */
  ghost function ForcesFrom(names: seq<string>, t: ForceTable, ps: seq<seq<string>>, i: nat): Result<ForceTable, LoadError>
    requires i <= |ps|
    decreases |ps| - i
  {
    if i == |ps| then Ok(t)
    else
      var p := ps[i];
      var err := CheckPair(names, p, i, InTwowayForce);
      if err.Some? then Err(err.value)
      else if p[0] in t.entries || p[1] in t.entries then Err(ConflictingForce(p[0], p[1]))
      else ForcesFrom(names, ForceStep(t, p), ps, i + 1)
  }

  /** The two-way-block loop of `load_data` from rule `i` on, `b` being `block` so far. */
  ghost function BlocksFrom(names: seq<string>, b: Block, ps: seq<seq<string>>, i: nat): Result<Block, LoadError>
    requires i <= |ps|
    decreases |ps| - i
  {
    if i == |ps| then Ok(b)
    else
      var err := CheckPair(names, ps[i], i, InTwowayBlock);
      if err.Some? then Err(err.value) else BlocksFrom(names, BlockStep(b, ps[i]), ps, i + 1)
  }

  /** Each of the first `i` rules names two participants. */
  ghost predicate AllNamed(names: seq<string>, ps: seq<seq<string>>, i: nat)
    requires i <= |ps|
  {
    forall j :: 0 <= j < i ==> PairNamed(names, ps[j])
  }

  /** Each of the first `i` two-way force rules has two sides, neither a key of `fixed` when it is added. */
  ghost predicate AllUnforced(forced: set<string>, ps: seq<seq<string>>, i: nat)
    requires i <= |ps|
  {
    forall j :: 0 <= j < i ==> HasPair(ps[j]) && PairUnforced(forced, ps, j)
  }

  // ---------------------------------------------------------------------
  // Lemmas about the specification functions

  lemma AllNamedStep(names: seq<string>, ps: seq<seq<string>>, i: nat)
    requires i < |ps| && AllNamed(names, ps, i) && PairNamed(names, ps[i])
    ensures AllNamed(names, ps, i + 1)
  {
  }

  lemma AllUnforcedStep(forced: set<string>, ps: seq<seq<string>>, i: nat)
    requires i < |ps| && AllUnforced(forced, ps, i) && HasPair(ps[i]) && PairUnforced(forced, ps, i)
    ensures AllUnforced(forced, ps, i + 1)
  {
  }

  lemma MembersSnoc(ps: seq<seq<string>>, i: nat)
    requires i < |ps|
    ensures Members(ps[..i + 1]) == Members(ps[..i]) + RuleMembers(ps[i])
  {
    assert ps[..i + 1][..i] == ps[..i];
  }

  lemma PartnersSnoc(ps: seq<seq<string>>, i: nat, k: string)
    requires i < |ps|
    ensures Partners(ps[..i + 1], k) == Partners(ps[..i], k) + RulePartners(ps[i], k)
  {
    assert ps[..i + 1][..i] == ps[..i];
  }

  lemma PairOrderSnoc(ps: seq<seq<string>>, i: nat)
    requires i < |ps| && HasPair(ps[i])
    ensures PairOrder(ps[..i + 1])
      == PairOrder(ps[..i]) + if ps[i][0] == ps[i][1] then [ps[i][0]] else [ps[i][0], ps[i][1]]
  {
    assert ps[..i + 1][..i] == ps[..i];
  }

  /** `Members` is everyone named by the first two entries of some rule, and nobody else. */
  lemma {:induction false} MembersMeaning(ps: seq<seq<string>>, x: string)
    ensures x in Members(ps) <==> exists i :: 0 <= i < |ps| && HasPair(ps[i]) && (ps[i][0] == x || ps[i][1] == x)
  {
    if ps != [] {
      var n := |ps| - 1;
      MembersMeaning(ps[..n], x);
      if x in Members(ps[..n]) {
        var i :| 0 <= i < n && HasPair(ps[..n][i]) && (ps[..n][i][0] == x || ps[..n][i][1] == x);
        assert ps[i] == ps[..n][i];
      }
      if i :| 0 <= i < |ps| && HasPair(ps[i]) && (ps[i][0] == x || ps[i][1] == x) {
        if i < n {
          assert ps[..n][i] == ps[i];
        }
      }
    }
  }

  /** `Partners(ps, k)` is everyone some rule pairs with `k`, in either direction, and nobody else. */
  lemma {:induction false} PartnersMeaning(ps: seq<seq<string>>, k: string, x: string)
    ensures x in Partners(ps, k) <==>
      exists i :: 0 <= i < |ps| && HasPair(ps[i]) && ((ps[i][0] == k && ps[i][1] == x) || (ps[i][1] == k && ps[i][0] == x))
  {
    if ps != [] {
      var n := |ps| - 1;
      PartnersMeaning(ps[..n], k, x);
      if x in Partners(ps[..n], k) {
        var i :| 0 <= i < n && HasPair(ps[..n][i])
          && ((ps[..n][i][0] == k && ps[..n][i][1] == x) || (ps[..n][i][1] == k && ps[..n][i][0] == x));
        assert ps[i] == ps[..n][i];
      }
      if i :| 0 <= i < |ps| && HasPair(ps[i]) && ((ps[i][0] == k && ps[i][1] == x) || (ps[i][1] == k && ps[i][0] == x)) {
        if i < n {
          assert ps[..n][i] == ps[i];
        }
      }
    }
  }

  /** The two sides of a rule are members of every list of rules that holds it. */
  lemma {:induction false} MembersHold(ps: seq<seq<string>>, i: nat)
    requires i < |ps| && HasPair(ps[i])
    ensures ps[i][0] in Members(ps) && ps[i][1] in Members(ps)
  {
    var n := |ps| - 1;
    if i < n {
      assert ps[..n][i] == ps[i];
      MembersHold(ps[..n], i);
    }
  }

  /** Rules that name participants mention only participants. */
  lemma {:induction false} MembersNamed(names: seq<string>, ps: seq<seq<string>>)
    requires AllNamed(names, ps, |ps|)
    ensures Members(ps) <= Elems(names)
    ensures forall k :: Partners(ps, k) <= Elems(names)
  {
    if ps != [] {
      var n := |ps| - 1;
      assert PairNamed(names, ps[n]);
      assert AllNamed(names, ps[..n], n) by {
        forall j | 0 <= j < n ensures PairNamed(names, ps[..n][j]) {
          assert ps[..n][j] == ps[j];
        }
      }
      MembersNamed(names, ps[..n]);
    }
  }

  /** The two-way-block loop, started after `i` valid rules, succeeds exactly when every rule names two participants. */
  lemma {:induction false} BlocksFromOk(names: seq<string>, b: Block, ps: seq<seq<string>>, i: nat)
    requires i <= |ps| && AllNamed(names, ps, i)
    ensures BlocksFrom(names, b, ps, i).Ok? <==> TwowayValid(names, ps, None)
    decreases |ps| - i
  {
    if i < |ps| {
      if CheckPair(names, ps[i], i, InTwowayBlock).None? {
        AllNamedStep(names, ps, i);
        BlocksFromOk(names, BlockStep(b, ps[i]), ps, i + 1);
      }
    }
  }

  /** When it succeeds, the two-way-block loop leaves `block` as `TwowayBlocked` does. */
  lemma {:induction false} BlocksFromValue(names: seq<string>, base: Block, ps: seq<seq<string>>, i: nat)
    requires i <= |ps|
    ensures BlocksFrom(names, TwowayBlocked(base, ps, i), ps, i).Ok? ==>
      BlocksFrom(names, TwowayBlocked(base, ps, i), ps, i).value == TwowayBlocked(base, ps, |ps|)
    decreases |ps| - i
  {
    if i < |ps| {
      BlocksFromValue(names, base, ps, i + 1);
    }
  }

  /** When it fails, the two-way-block loop reports a fault of the rules. */
  lemma {:induction false} BlocksFromFault(names: seq<string>, b: Block, ps: seq<seq<string>>, i: nat)
    requires i <= |ps|
    ensures BlocksFrom(names, b, ps, i).Err? ==> TwowayFault(names, ps, None, InTwowayBlock, BlocksFrom(names, b, ps, i).error)
    decreases |ps| - i
  {
    if i < |ps| {
      if HasPair(ps[i]) { MembersHold(ps, i); }
      BlocksFromFault(names, BlockStep(b, ps[i]), ps, i + 1);
    }
  }

  /** The two-way-force loop, started after `i` valid rules, succeeds only when every rule is valid. */
  lemma {:induction false} ForcesFromOkValid(names: seq<string>, base: ForceTable, ps: seq<seq<string>>, i: nat)
    requires i <= |ps| && AllNamed(names, ps, i) && AllUnforced(base.entries.Keys, ps, i)
    requires ForcesFrom(names, TwowayForced(base, ps, i), ps, i).Ok?
    ensures TwowayValid(names, ps, Some(base.entries.Keys))
    decreases |ps| - i
  {
    if i < |ps| {
      var t, p := TwowayForced(base, ps, i), ps[i];
      assert CheckPair(names, p, i, InTwowayForce).None?;
      TwowayForcedKeys(base, ps, i);
      assert p[0] !in t.entries && p[1] !in t.entries;
      AllNamedStep(names, ps, i);
      AllUnforcedStep(base.entries.Keys, ps, i);
      ForcesFromOkValid(names, base, ps, i + 1);
    }
  }

  /** The two-way-force loop, started after `i` valid rules, succeeds when every rule is valid. */
  lemma {:induction false} ForcesFromValidOk(names: seq<string>, base: ForceTable, ps: seq<seq<string>>, i: nat)
    requires i <= |ps| && TwowayValid(names, ps, Some(base.entries.Keys))
    ensures ForcesFrom(names, TwowayForced(base, ps, i), ps, i).Ok?
    decreases |ps| - i
  {
    if i < |ps| {
      assert PairNamed(names, ps[i]) && PairUnforced(base.entries.Keys, ps, i);
      TwowayForcedKeys(base, ps, i);
      ForcesFromValidOk(names, base, ps, i + 1);
    }
  }

  /** When it succeeds, the two-way-force loop leaves `fixed` as `TwowayForced` does. */
  lemma {:induction false} ForcesFromValue(names: seq<string>, base: ForceTable, ps: seq<seq<string>>, i: nat)
    requires i <= |ps|
    ensures ForcesFrom(names, TwowayForced(base, ps, i), ps, i).Ok? ==>
      ForcesFrom(names, TwowayForced(base, ps, i), ps, i).value == TwowayForced(base, ps, |ps|)
    decreases |ps| - i
  {
    if i < |ps| {
      ForcesFromValue(names, base, ps, i + 1);
    }
  }

  /** When it fails, the two-way-force loop reports a fault of the rules. */
  lemma {:induction false} ForcesFromFault(names: seq<string>, base: ForceTable, ps: seq<seq<string>>, i: nat)
    requires i <= |ps|
    ensures ForcesFrom(names, TwowayForced(base, ps, i), ps, i).Err? ==>
      TwowayFault(names, ps, Some(base.entries.Keys), InTwowayForce, ForcesFrom(names, TwowayForced(base, ps, i), ps, i).error)
    decreases |ps| - i
  {
    if i < |ps| {
      if HasPair(ps[i]) {
        MembersHold(ps, i);
        TwowayForcedKeys(base, ps, i);
      }
      ForcesFromFault(names, base, ps, i + 1);
    }
  }

  /** The whole two-way-force loop: it succeeds exactly on valid rules, with `TwowayForced`, and fails with a fault of the rules. */
  lemma ForcesLoop(names: seq<string>, base: ForceTable, tf: seq<seq<string>>)
    ensures ForcesFrom(names, base, tf, 0).Ok? <==> TwowayValid(names, tf, Some(base.entries.Keys))
    ensures ForcesFrom(names, base, tf, 0).Ok? ==> ForcesFrom(names, base, tf, 0).value == TwowayForced(base, tf, |tf|)
    ensures ForcesFrom(names, base, tf, 0).Err? ==>
      TwowayFault(names, tf, Some(base.entries.Keys), InTwowayForce, ForcesFrom(names, base, tf, 0).error)
  {
    assert TwowayForced(base, tf, 0) == base;
    if ForcesFrom(names, base, tf, 0).Ok? {
      ForcesFromOkValid(names, base, tf, 0);
    }
    if TwowayValid(names, tf, Some(base.entries.Keys)) {
      ForcesFromValidOk(names, base, tf, 0);
    }
    ForcesFromValue(names, base, tf, 0);
    ForcesFromFault(names, base, tf, 0);
  }

  /** The whole two-way-block loop: it succeeds exactly on valid rules, with `TwowayBlocked`, and fails with a fault of the rules. */
  lemma BlocksLoop(names: seq<string>, base: Block, tb: seq<seq<string>>)
    ensures BlocksFrom(names, base, tb, 0).Ok? <==> TwowayValid(names, tb, None)
    ensures BlocksFrom(names, base, tb, 0).Ok? ==> BlocksFrom(names, base, tb, 0).value == TwowayBlocked(base, tb, |tb|)
    ensures BlocksFrom(names, base, tb, 0).Err? ==> TwowayFault(names, tb, None, InTwowayBlock, BlocksFrom(names, base, tb, 0).error)
  {
    assert TwowayBlocked(base, tb, 0) == base;
    BlocksFromOk(names, base, tb, 0);
    BlocksFromValue(names, base, tb, 0);
    BlocksFromFault(names, base, tb, 0);
  }

  /** Two-way blocks add their sides as keys of `block`. */
  lemma {:induction false} TwowayBlockedKeys(base: Block, ps: seq<seq<string>>, i: nat)
    requires i <= |ps|
    ensures TwowayBlocked(base, ps, i).Keys == base.Keys + Members(ps[..i])
  {
    if i > 0 {
      TwowayBlockedKeys(base, ps, i - 1);
      MembersSnoc(ps, i - 1);
    }
  }

  /** `AddBlock` adds `pick` to the block set of `who` and of nobody else. */
  lemma AddBlockOf(b: Block, who: string, pick: string, u: string)
    ensures BlockOf(AddBlock(b, who, pick), u) == BlockOf(b, u) + if u == who then {pick} else {}
  {
  }

  /** Two-way blocks add to a participant's block set exactly the partners the rules give them. */
  lemma {:induction false} TwowayBlockedPartners(base: Block, ps: seq<seq<string>>, i: nat, k: string)
    requires i <= |ps|
    ensures BlockOf(TwowayBlocked(base, ps, i), k) == BlockOf(base, k) + Partners(ps[..i], k)
  {
    if i > 0 {
      var b, p := TwowayBlocked(base, ps, i - 1), ps[i - 1];
      TwowayBlockedPartners(base, ps, i - 1, k);
      PartnersSnoc(ps, i - 1, k);
      if HasPair(p) {
        AddBlockOf(b, p[0], p[1], k);
        AddBlockOf(AddBlock(b, p[0], p[1]), p[1], p[0], k);
      }
    }
  }

  /** All two-way blocks, as `load_data` leaves `block`. */
  lemma TwowayBlockedAll(base: Block, ps: seq<seq<string>>)
    ensures BlocksApplied(base, ps, TwowayBlocked(base, ps, |ps|))
  {
    assert ps[..|ps|] == ps;
    TwowayBlockedKeys(base, ps, |ps|);
    forall k ensures BlockOf(TwowayBlocked(base, ps, |ps|), k) == BlockOf(base, k) + Partners(ps, k) {
      TwowayBlockedPartners(base, ps, |ps|, k);
    }
  }

  /** Two-way forces add their sides as keys of `fixed`. */
  lemma {:induction false} TwowayForcedKeys(base: ForceTable, ps: seq<seq<string>>, i: nat)
    requires i <= |ps|
    ensures TwowayForced(base, ps, i).entries.Keys == base.entries.Keys + Members(ps[..i])
  {
    if i > 0 {
      TwowayForcedKeys(base, ps, i - 1);
      MembersSnoc(ps, i - 1);
    }
  }

  /** Two-way forces keep `fixed` a well-formed dict. */
  lemma {:induction false} TwowayForcedOrdered(base: ForceTable, ps: seq<seq<string>>, i: nat)
    requires i <= |ps| && base.Ordered()
    ensures TwowayForced(base, ps, i).Ordered()
  {
    if i > 0 {
      TwowayForcedOrdered(base, ps, i - 1);
      var f, p := TwowayForced(base, ps, i - 1), ps[i - 1];
      if HasPair(p) {
        PutOrdered(f, p[0], p[1]);
        PutOrdered(Put(f, p[0], p[1]), p[1], p[0]);
      }
    }
  }

  /** Unforced two-way forces append their sides to the key order of `fixed`. */
  lemma {:induction false} TwowayForcedOrder(base: ForceTable, ps: seq<seq<string>>, i: nat)
    requires i <= |ps| && AllUnforced(base.entries.Keys, ps, i)
    ensures TwowayForced(base, ps, i).keys == base.keys + PairOrder(ps[..i])
  {
    if i > 0 {
      var f, p := TwowayForced(base, ps, i - 1), ps[i - 1];
      assert HasPair(p) && PairUnforced(base.entries.Keys, ps, i - 1);
      TwowayForcedOrder(base, ps, i - 1);
      TwowayForcedKeys(base, ps, i - 1);
      PairOrderSnoc(ps, i - 1);
      assert p[0] !in f.entries && p[1] !in f.entries;
      var f1 := Put(f, p[0], p[1]);
      assert f1.keys == f.keys + [p[0]];
      var f2 := Put(f1, p[1], p[0]);
      assert ForceStep(f, p) == f2;
      AppendAssoc(base.keys, PairOrder(ps[..i - 1]), [p[0]]);
      if p[0] != p[1] {
        assert p[1] !in f1.entries;
        AppendAssoc(base.keys, PairOrder(ps[..i - 1]) + [p[0]], [p[1]]);
        AppendAssoc(PairOrder(ps[..i - 1]), [p[0]], [p[1]]);
        assert [p[0]] + [p[1]] == [p[0], p[1]];
      }
    }
  }

  /** Unforced two-way forces leave the one-way forces as they were. */
  lemma {:induction false} TwowayForcedKeeps(base: ForceTable, ps: seq<seq<string>>, i: nat, k: string)
    requires i <= |ps| && AllUnforced(base.entries.Keys, ps, i) && k in base.entries
    ensures k in TwowayForced(base, ps, i).entries && TwowayForced(base, ps, i).entries[k] == base.entries[k]
  {
    if i > 0 {
      assert HasPair(ps[i - 1]) && PairUnforced(base.entries.Keys, ps, i - 1);
      TwowayForcedKeeps(base, ps, i - 1, k);
    }
  }

  /** After unforced two-way forces, `fixed` sends the two sides of each rule to each other. */
  lemma {:induction false} TwowayForcedBothWays(base: ForceTable, ps: seq<seq<string>>, i: nat, j: nat)
    requires i <= |ps| && AllUnforced(base.entries.Keys, ps, i) && j < i
    ensures ForcedBothWays(TwowayForced(base, ps, i).entries, ps[j])
  {
    assert HasPair(ps[i - 1]) && PairUnforced(base.entries.Keys, ps, i - 1);
    if j < i - 1 {
      TwowayForcedBothWays(base, ps, i - 1, j);
      assert ps[..i - 1][j] == ps[j];
      MembersHold(ps[..i - 1], j);
    }
  }

  /** Two-way forces between participants keep every forced target a participant. */
  lemma {:induction false} TwowayForcedNamed(names: seq<string>, base: ForceTable, ps: seq<seq<string>>, i: nat)
    requires i <= |ps| && AllNamed(names, ps, i)
    requires forall k :: k in base.entries ==> base.entries[k] in names
    ensures forall k :: k in TwowayForced(base, ps, i).entries ==> TwowayForced(base, ps, i).entries[k] in names
  {
    if i > 0 {
      assert PairNamed(names, ps[i - 1]);
      TwowayForcedNamed(names, base, ps, i - 1);
    }
  }

  /** All two-way forces, as `load_data` leaves `fixed` when none conflicts. */
  lemma TwowayForcedAll(names: seq<string>, base: ForceTable, ps: seq<seq<string>>)
    requires AllNamed(names, ps, |ps|) && AllUnforced(base.entries.Keys, ps, |ps|)
    requires base.Ordered() && forall k :: k in base.entries ==> base.entries[k] in names
    ensures ForcesApplied(names, base, ps, TwowayForced(base, ps, |ps|))
  {
    assert ps[..|ps|] == ps;
    TwowayForcedOrdered(base, ps, |ps|);
    TwowayForcedKeys(base, ps, |ps|);
    TwowayForcedOrder(base, ps, |ps|);
    TwowayForcedNamed(names, base, ps, |ps|);
    forall k | k in base.entries ensures TwowayForced(base, ps, |ps|).entries[k] == base.entries[k] {
      TwowayForcedKeeps(base, ps, |ps|, k);
    }
    forall j | 0 <= j < |ps| ensures ForcedBothWays(TwowayForced(base, ps, |ps|).entries, ps[j]) {
      TwowayForcedBothWays(base, ps, |ps|, j);
    }
  }

  // ---------------------------------------------------------------------
  // load_data, one loop at a time

  /**
   * The checks `load_data` makes on one two-way rule before using it: reading
   * `[0]` and `[1]` (an `IndexError` on a shorter rule), then `check_name` on
   * the left side and on the right side.
   */
  function CheckPair(names: seq<string>, p: seq<string>, index: nat, section: Section): (r: Option<LoadError>)
    ensures r.None? <==> PairNamed(names, p)
    ensures r.Some? && r.value.NotParticipant? ==>
      r.value.section == section && r.value.name !in names && HasPair(p) && r.value.name in {p[0], p[1]}
    ensures r.Some? && !r.value.NotParticipant? ==> r.value == ShortPair(section, index) && !HasPair(p)
  {
    if |p| < 2 then Some(ShortPair(section, index))
    else if p[0] !in names then CheckName(p[0], names, Some(section))
    else CheckName(p[1], names, Some(section))
  }

  /** The first loop of `load_data`: every key and value of `force` must be a participant. */
  method CheckForce(names: seq<string>, force: ForceTable) returns (err: Option<LoadError>)
    requires force.Ordered()
    ensures err.None? <==> ForceNamesValid(names, force)
    ensures err.Some? ==> err.value.NotParticipant? && err.value.section == InForce
    ensures err.Some? ==> err.value.name !in names
    ensures err.Some? ==> err.value.name in force.entries.Keys || err.value.name in force.entries.Values
  {
    var i := 0;
    while i < |force.keys|
      invariant 0 <= i <= |force.keys|
      invariant forall j :: 0 <= j < i ==> force.keys[j] in names && force.entries[force.keys[j]] in names
    {
      var key := force.keys[i];
      assert key in Elems(force.keys);
      err := CheckName(key, names, Some(InForce));
      if err.Some? { return; }
      err := CheckName(force.entries[key], names, Some(InForce));
      if err.Some? { return; }
      i := i + 1;
    }
    forall k | k in force.entries ensures k in names && force.entries[k] in names {
      assert k in Elems(force.keys);
    }
    err := None;
  }

  /**
   * The second loop of `load_data`: every key of `block` must be a participant,
   * its value becomes a set, and every member of that set must be a participant
   * (checked in the set's own, unspecified, order). The source overwrites the
   * parsed values in place; the model builds the dict key by key, which ends in
   * the same state.
   */
  method NormalizeBlock(names: seq<string>, raw: Dict<BlockValue>) returns (r: Result<Block, LoadError>)
    requires raw.Ordered()
    ensures r.Ok? <==> BlockNamesValid(names, raw)
    ensures r.Ok? ==> r.value.Keys == raw.entries.Keys
    ensures r.Ok? ==> forall k :: k in raw.entries ==> r.value[k] == Normalize(raw.entries[k])
    ensures r.Err? ==> r.error.NotParticipant? && r.error.section == InBlock && r.error.name !in names
    ensures r.Err? ==>
      r.error.name in raw.entries.Keys || exists k :: k in raw.entries && r.error.name in Normalize(raw.entries[k])
  {
    var block: Block := map[];
    var i := 0;
    while i < |raw.keys|
      invariant 0 <= i <= |raw.keys|
      invariant block.Keys == Elems(raw.keys[..i])
      invariant forall k :: k in block ==> k in names && block[k] == Normalize(raw.entries[k]) && block[k] <= Elems(names)
    {
      var key := raw.keys[i];
      assert key in Elems(raw.keys);
      var err := CheckName(key, names, Some(InBlock));
      if err.Some? { return Err(err.value); }
      var value := Normalize(raw.entries[key]);
      block := block[key := value];
      var rest := value;
      while rest != {}
        invariant rest <= value
        invariant forall n :: n in value - rest ==> n in names
        decreases rest
      {
        var name :| name in rest;
        err := CheckName(name, names, Some(InBlock));
        if err.Some? { return Err(err.value); }
        rest := rest - {name};
      }
      assert value <= Elems(names);
      assert raw.keys[..i + 1] == raw.keys[..i] + [key];
      assert Elems(raw.keys[..i + 1]) == Elems(raw.keys[..i]) + {key};
      i := i + 1;
    }
    assert raw.keys[..i] == raw.keys;
    r := Ok(block);
  }

  /**
   * The third loop of `load_data`: each two-way force `[l, r]` becomes
   * `fixed[l] = r` and `fixed[r] = l`, after checking that both are
   * participants and that neither is already a key of `fixed`.
   */
  method AddTwowayForces(names: seq<string>, base: ForceTable, tf: seq<seq<string>>)
    returns (r: Result<ForceTable, LoadError>)
    ensures r == ForcesFrom(names, base, tf, 0)
  {
    var fixed := base;
    var i := 0;
    while i < |tf|
      invariant 0 <= i <= |tf|
      invariant ForcesFrom(names, fixed, tf, i) == ForcesFrom(names, base, tf, 0)
    {
      var given := tf[i];
      var err := CheckPair(names, given, i, InTwowayForce);
      if err.Some? {
        return Err(err.value);
      }
      var left, right := given[0], given[1];
      if left in fixed.entries || right in fixed.entries {
        return Err(ConflictingForce(left, right));
      }
      fixed := Put(fixed, left, right);
      fixed := Put(fixed, right, left);
      i := i + 1;
    }
    r := Ok(fixed);
  }

  /**
   * The fourth loop of `load_data`: each two-way block `[l, r]` adds `r` to
   * `block[l]` and `l` to `block[r]`, keeping what was blocked before.
   */
  method AddTwowayBlocks(names: seq<string>, base: Block, tb: seq<seq<string>>)
    returns (r: Result<Block, LoadError>)
    ensures r == BlocksFrom(names, base, tb, 0)
  {
    var block := base;
    var i := 0;
    while i < |tb|
      invariant 0 <= i <= |tb|
      invariant BlocksFrom(names, block, tb, i) == BlocksFrom(names, base, tb, 0)
    {
      var forbid := tb[i];
      var err := CheckPair(names, forbid, i, InTwowayBlock);
      if err.Some? {
        return Err(err.value);
      }
      var left, right := forbid[0], forbid[1];
      block := AddBlock(block, left, right);
      block := AddBlock(block, right, left);
      i := i + 1;
    }
    r := Ok(block);
  }

  /**
   * `load_data`, with `sys.exit` and the `IndexError` of a short two-way rule
   * as `Err`. Loading succeeds exactly when every check passes, and an error
   * names a real fault of the configuration.
   */
  method LoadData(cfg: Config) returns (r: Result<Loaded, LoadError>)
    requires cfg.force.Ordered() && cfg.block.Ordered()
    ensures r.Ok? <==> Loadable(cfg)
    ensures r.Ok? ==> LoadedFrom(cfg, r.value)
    ensures r.Err? ==> LoadFault(cfg, r.error)
  {
    var names := cfg.names;
    var err := CheckForce(names, cfg.force);
    if err.Some? { return Err(err.value); }
    var block := NormalizeBlock(names, cfg.block);
    if block.Err? { return Err(block.error); }
    var fixed := AddTwowayForces(names, cfg.force, cfg.twowayForce);
    ForcesLoop(names, cfg.force, cfg.twowayForce);
    if fixed.Err? { return Err(fixed.error); }
    var blocks := AddTwowayBlocks(names, block.value, cfg.twowayBlock);
    BlocksLoop(names, block.value, cfg.twowayBlock);
    if blocks.Err? { return Err(blocks.error); }
    LoadedFromLoops(cfg, block.value);
    r := Ok(Loaded(names, fixed.value, blocks.value));
  }

  /** The result assembled from the four loops of `load_data` is `LoadedFrom` the configuration. */
  lemma LoadedFromLoops(cfg: Config, initial: Block)
    requires Loadable(cfg) && cfg.force.Ordered()
    requires initial.Keys == cfg.block.entries.Keys
    requires forall k :: k in cfg.block.entries ==> initial[k] == Normalize(cfg.block.entries[k])
    ensures LoadedFrom(cfg, Loaded(cfg.names, TwowayForced(cfg.force, cfg.twowayForce, |cfg.twowayForce|),
                                   TwowayBlocked(initial, cfg.twowayBlock, |cfg.twowayBlock|)))
  {
    var fixed := TwowayForced(cfg.force, cfg.twowayForce, |cfg.twowayForce|);
    var b := TwowayBlocked(initial, cfg.twowayBlock, |cfg.twowayBlock|);
    assert AllNamed(cfg.names, cfg.twowayForce, |cfg.twowayForce|);
    assert AllUnforced(cfg.force.entries.Keys, cfg.twowayForce, |cfg.twowayForce|);
    TwowayForcedAll(cfg.names, cfg.force, cfg.twowayForce);
    TwowayBlockedAll(initial, cfg.twowayBlock);
    InitialBlocks(cfg, initial, b);
    FixedWithinNames(cfg, fixed);
    BlockWithinNames(cfg, b);
  }

  /** Adding the two-way blocks to the normalized one-way blocks gives `BlocksOver` the configuration. */
  lemma InitialBlocks(cfg: Config, initial: Block, b: Block)
    requires initial.Keys == cfg.block.entries.Keys
    requires forall k :: k in cfg.block.entries ==> initial[k] == Normalize(cfg.block.entries[k])
    requires BlocksApplied(initial, cfg.twowayBlock, b)
    ensures BlocksOver(cfg, b)
  {
    forall k ensures BlockOf(b, k) == InitialBlock(cfg, k) + Partners(cfg.twowayBlock, k) {
      assert BlockOf(initial, k) == InitialBlock(cfg, k);
    }
  }

  /** Every key and target of the loaded `fixed` is a participant. */
  lemma FixedWithinNames(cfg: Config, fixed: ForceTable)
    requires Loadable(cfg) && ForcesApplied(cfg.names, cfg.force, cfg.twowayForce, fixed)
    ensures forall k :: k in fixed.entries ==> k in cfg.names && fixed.entries[k] in cfg.names
  {
    assert AllNamed(cfg.names, cfg.twowayForce, |cfg.twowayForce|);
    MembersNamed(cfg.names, cfg.twowayForce);
    forall k | k in fixed.entries ensures k in cfg.names {
      if k !in cfg.force.entries {
        assert k in Elems(cfg.names);
      }
    }
  }

  /** Every key and blocked participant of the loaded `block` is a participant. */
  lemma BlockWithinNames(cfg: Config, b: Block)
    requires Loadable(cfg) && BlocksOver(cfg, b)
    ensures forall k :: k in b ==> k in cfg.names && b[k] <= Elems(cfg.names)
  {
    assert AllNamed(cfg.names, cfg.twowayBlock, |cfg.twowayBlock|);
    MembersNamed(cfg.names, cfg.twowayBlock);
    forall k | k in b ensures k in cfg.names && b[k] <= Elems(cfg.names) {
      assert BlockOf(b, k) == InitialBlock(cfg, k) + Partners(cfg.twowayBlock, k);
      if k !in cfg.block.entries {
        assert k in Elems(cfg.names);
      }
    }
  }
}
