/**
 * `gen_pairs` and `gen_pairs_rec`: the randomised backtracking search that
 * gives every participant a target, under the forced and blocked pairs.
 * `random.choice` is a nondeterministic choice (`:|`), so every property is
 * proved for every sequence of choices.
 */
module Pairing {
  import opened Collections
  import opened Constraints
  import opened Eligibility

  /** What a search returns. */
  datatype Outcome =
    | Found(pairs: map<string, string>)   // a complete pairing
    | NoPairing                           // `None`: every branch failed
    | NotInList(name: string)             // `picks_left.remove(pick)` raised ValueError
    | EmptyChoice                         // `random.choice([])` raised IndexError
    | OutOfFuel                           // a retry loop that did not finish within the fuel given

  /**
   * What the search does when the recursive call for a forced participant
   * fails. `RetryForever` is the code as written: it blocks the forced target,
   * but `eligible_for` offers it again, so the loop never ends; each retry
   * spends one unit of fuel. `GiveUp` fails at once, to the caller.
   */
  datatype ForcedRetry = RetryForever | GiveUp

  // ---------------------------------------------------------------------
  // Who goes first: the first forced participant still unpaired.
  // ---------------------------------------------------------------------

  /** The first of `keys[i..]` that is still unpaired. */
  function FirstFrom(keys: seq<string>, unpaired: seq<string>, i: nat): Option<string>
    decreases |keys| - i
  {
    if i >= |keys| then None
    else if keys[i] in unpaired then Some(keys[i])
    else FirstFrom(keys, unpaired, i + 1)
  }

  /** `FirstFrom` finds no one exactly when none of the keys is unpaired. */
  lemma {:induction false} FirstFromNone(keys: seq<string>, unpaired: seq<string>, i: nat)
    ensures FirstFrom(keys, unpaired, i).None? <==> forall j :: i <= j < |keys| ==> keys[j] !in unpaired
    decreases |keys| - i
  {
    if i < |keys| && keys[i] !in unpaired {
      FirstFromNone(keys, unpaired, i + 1);
    }
  }

  /** What `FirstFrom` finds is an unpaired key. */
  lemma {:induction false} FirstFromFound(keys: seq<string>, unpaired: seq<string>, i: nat)
    ensures FirstFrom(keys, unpaired, i).Some? ==>
      FirstFrom(keys, unpaired, i).value in keys && FirstFrom(keys, unpaired, i).value in unpaired
    decreases |keys| - i
  {
    if i < |keys| && keys[i] !in unpaired {
      FirstFromFound(keys, unpaired, i + 1);
    }
  }

  /** `FirstFrom` finds the unpaired key that has no unpaired key before it. */
  lemma {:induction false} FirstFromAt(keys: seq<string>, unpaired: seq<string>, i: nat, j: nat)
    requires i <= j < |keys| && keys[j] in unpaired
    requires forall l :: i <= l < j ==> keys[l] !in unpaired
    ensures FirstFrom(keys, unpaired, i) == Some(keys[j])
    decreases j - i
  {
    if i < j {
      FirstFromAt(keys, unpaired, i + 1, j);
    }
  }

  /** The priority loop of `gen_pairs_rec`: the first forced participant still unpaired replaces the random choice. */
  method Prioritize(keys: seq<string>, unpaired: seq<string>, who: string) returns (w: string)
    ensures w == match FirstFrom(keys, unpaired, 0) case Some(k) => k case None => who
  {
    w := who;
    var i := 0;
    while i < |keys|
      invariant i <= |keys|
      invariant FirstFrom(keys, unpaired, i) == FirstFrom(keys, unpaired, 0)
    {
      if keys[i] in unpaired {
        w := keys[i];
        break;
      }
      i := i + 1;
    }
  }

  // ---------------------------------------------------------------------
  // The picks left at the start: every name, less the forced targets.
  // ---------------------------------------------------------------------

  /** `picks_left.remove(v)` for each `v` of `vs` in turn; `None` when a removal raises. */
  function Without(s: seq<string>, vs: seq<string>): Option<seq<string>> {
    if vs == [] then Some(s)
    else
      match Without(s, vs[..|vs| - 1])
      case None => None
      case Some(r) => if vs[|vs| - 1] in r then Some(RemoveFirst(r, vs[|vs| - 1])) else None
  }

  /** Removals that succeed leave the multiset difference. */
  lemma {:induction false} WithoutValue(s: seq<string>, vs: seq<string>)
    requires Without(s, vs).Some?
    ensures multiset(Without(s, vs).value) == multiset(s) - multiset(vs)
  {
    if vs != [] {
      var n := |vs| - 1;
      WithoutValue(s, vs[..n]);
      FrontLast(vs);
      assert multiset(vs) == multiset(vs[..n]) + multiset{vs[n]};
      var r := Without(s, vs[..n]).value;
      assert multiset(RemoveFirst(r, vs[n])) == multiset(r) - multiset{vs[n]};
    }
  }

  /** The removals all succeed exactly when `vs` is a sub-multiset of `s`. */
  lemma {:induction false} WithoutMultiset(s: seq<string>, vs: seq<string>)
    ensures Without(s, vs).Some? <==> multiset(vs) <= multiset(s)
  {
    if vs != [] {
      var n := |vs| - 1;
      var v := vs[n];
      WithoutMultiset(s, vs[..n]);
      FrontLast(vs);
      assert multiset(vs) == multiset(vs[..n]) + multiset{v};
      match Without(s, vs[..n])
      case None =>
        assert !(multiset(vs[..n]) <= multiset(s));
      case Some(r) =>
        WithoutValue(s, vs[..n]);
        if v in r {
          assert multiset(r)[v] > 0;
          assert multiset(vs) <= multiset(s);
        } else {
          assert multiset(r)[v] == 0;
          assert multiset(vs)[v] > multiset(s)[v];
        }
    }
  }

  /** A removal that raises makes every longer run of removals raise. */
  lemma {:induction false} WithoutPrefix(s: seq<string>, vs: seq<string>, i: nat)
    requires i <= |vs| && Without(s, vs[..i]).None?
    ensures Without(s, vs).None?
    decreases |vs| - i
  {
    if i < |vs| {
      assert vs[..i + 1][..i] == vs[..i];
      WithoutPrefix(s, vs, i + 1);
    } else {
      assert vs[..i] == vs;
    }
  }

  /** On a list without repetitions, the removals leave a list without repetitions holding exactly the other names. */
  lemma {:induction false} WithoutDistinct(s: seq<string>, vs: seq<string>)
    requires Distinct(s) && Without(s, vs).Some?
    ensures Distinct(Without(s, vs).value)
    ensures Elems(Without(s, vs).value) == Elems(s) - Elems(vs)
    ensures |Without(s, vs).value| + |vs| == |s|
  {
    if vs != [] {
      var n := |vs| - 1;
      WithoutDistinct(s, vs[..n]);
      var r := Without(s, vs[..n]).value;
      RemoveFirstDistinct(r, vs[n]);
      FrontLast(vs);
      assert Elems(vs) == Elems(vs[..n]) + {vs[n]};
    }
  }

  /** Removals that succeed remove names of the list. */
  lemma {:induction false} WithoutTargetsIn(s: seq<string>, vs: seq<string>)
    requires Without(s, vs).Some?
    ensures Elems(vs) <= Elems(s)
  {
    if vs != [] {
      var n := |vs| - 1;
      var front := vs[..n];
      WithoutTargetsIn(s, front);
      WithoutValue(s, front);
      var v := vs[n];
      assert multiset(Without(s, front).value)[v] > 0;
      assert v in s;
      FrontLast(vs);
      assert Elems(vs) == Elems(front) + {v};
    }
  }

  /** On a list without repetitions, the removals that succeed removed no name twice. */
  lemma {:induction false} WithoutTargetsDistinct(s: seq<string>, vs: seq<string>)
    requires Distinct(s) && Without(s, vs).Some?
    ensures Distinct(vs)
  {
    if vs != [] {
      var n := |vs| - 1;
      var front := vs[..n];
      WithoutTargetsDistinct(s, front);
      WithoutDistinct(s, front);
      var v := vs[n];
      assert v in Elems(Without(s, front).value);
      assert v !in front;
      DistinctSnoc(front, v);
      FrontLast(vs);
    }
  }

  // ---------------------------------------------------------------------
  // The search state and what a completion of it is.
  // ---------------------------------------------------------------------

  /** The arguments of one `gen_pairs_rec` call. */
  datatype State = State(
    pairs: map<string, string>,   // the pairs chosen so far
    unpaired: seq<string>,        // who still has no target
    picks: seq<string>,           // who is still no one's target, less the forced targets
    fixed: ForceTable,
    block: Block)

  /** `t` may be the target of `w`: the forced target, or else an allowed pick still left. */
  ghost predicate Fits(s: State, w: string, t: string) {
    if w in s.fixed.entries then t == s.fixed.entries[w] else t in s.picks && Allowed(w, s.block, t)
  }

  /** No two participants have the same target. */
  ghost predicate Injective(q: map<string, string>) {
    forall a, b :: a in q && b in q && a != b ==> q[a] != q[b]
  }

  /** `q` completes the state: it keeps the pairs chosen and gives each unpaired participant a fitting target, all targets distinct. */
  ghost predicate Extends(q: map<string, string>, s: State) {
    && q.Keys == s.pairs.Keys + Elems(s.unpaired)
    && (forall k :: k in s.pairs ==> q[k] == s.pairs[k])
    && (forall w :: w in s.unpaired ==> Fits(s, w, q[w]))
    && Injective(q)
  }

  /** The state has no completion. */
  ghost predicate NoCompletion(s: State) {
    forall q :: !Extends(q, s)
  }

  /** No completion of the state gives `who` the target `t`. */
  ghost predicate Dead(s: State, who: string, t: string) {
    forall q :: Extends(q, s) && who in q ==> q[who] != t
  }

  /** The lists of the state have no repetitions. */
  ghost predicate ListsDistinct(s: State) {
    Distinct(s.unpaired) && Distinct(s.picks)
  }

  /** The chosen pairs are apart from what is left: no unpaired participant is paired, no target is still a pick, no target is taken twice. */
  ghost predicate PairsApart(s: State) {
    && (forall w :: w in s.unpaired ==> w !in s.pairs)
    && (forall k :: k in s.pairs ==> s.pairs[k] !in s.picks)
    && Injective(s.pairs)
  }

  /** Forced targets of unpaired participants are still free, are not picks, and are distinct. */
  ghost predicate ForcedFree(s: State) {
    && (forall w :: w in s.unpaired && w in s.fixed.entries ==> s.fixed.entries[w] !in s.picks)
    && (forall w, k :: w in s.unpaired && w in s.fixed.entries && k in s.pairs ==> s.pairs[k] != s.fixed.entries[w])
    && (forall a, b :: a in s.unpaired && b in s.unpaired && a in s.fixed.entries && b in s.fixed.entries && a != b ==>
          s.fixed.entries[a] != s.fixed.entries[b])
  }

  /** There are as many picks left as unforced unpaired participants. */
  ghost predicate Balanced(s: State) {
    |s.picks| + |Elems(s.unpaired) * s.fixed.entries.Keys| == |s.unpaired|
  }

  /** The invariant of every state the search reaches. */
  ghost predicate Inv(s: State) {
    ListsDistinct(s) && PairsApart(s) && ForcedFree(s) && Balanced(s)
  }

  /** The state given to the recursive call that pairs `who` with `pick`, with the caller's current `block`. */
  ghost function Child(s: State, who: string, pick: string, block: Block): State {
    State(
      s.pairs[who := pick],
      if who in s.unpaired then RemoveFirst(s.unpaired, who) else s.unpaired,
      if pick in s.picks then RemoveFirst(s.picks, pick) else s.picks,
      s.fixed,
      block)
  }

  /** `cur` blocks for `who` at least what `b` blocks, and for everyone else exactly the same. */
  ghost predicate BlockGrows(b: Block, cur: Block, who: string) {
    && BlockOf(b, who) <= BlockOf(cur, who)
    && forall w :: w != who ==> BlockOf(cur, w) == BlockOf(b, w)
  }

  // ---------------------------------------------------------------------
  // One step of the search keeps the invariant and relates completions.
  // ---------------------------------------------------------------------

  /** Pairing an unpaired participant removes them, and their target, from the lists. */
  lemma ChildLists(s: State, who: string, pick: string, b: Block)
    requires ListsDistinct(s) && who in s.unpaired
    ensures ListsDistinct(Child(s, who, pick, b))
    ensures Elems(Child(s, who, pick, b).unpaired) == Elems(s.unpaired) - {who}
    ensures Elems(Child(s, who, pick, b).picks) == Elems(s.picks) - {pick}
  {
    RemoveFirstDistinct(s.unpaired, who);
    if pick in s.picks {
      RemoveFirstDistinct(s.picks, pick);
    } else {
      assert pick !in Elems(s.picks);
    }
  }

  /** After pairing `who`, no participant still unpaired is paired. */
  lemma ChildUnpairedApart(s: State, who: string, pick: string, b: Block)
    requires Inv(s) && who in s.unpaired
    ensures forall w :: w in Child(s, who, pick, b).unpaired ==> w !in Child(s, who, pick, b).pairs
  {
    var c := Child(s, who, pick, b);
    ChildLists(s, who, pick, b);
    forall w | w in c.unpaired ensures w !in c.pairs {
      assert w in Elems(c.unpaired);
    }
  }

  /** After pairing `who` with a fitting target, no target is still a pick. */
  lemma ChildPicksApart(s: State, who: string, pick: string, b: Block)
    requires Inv(s) && who in s.unpaired
    ensures forall k :: k in Child(s, who, pick, b).pairs ==> Child(s, who, pick, b).pairs[k] !in Child(s, who, pick, b).picks
  {
    var c := Child(s, who, pick, b);
    ChildLists(s, who, pick, b);
    forall k | k in c.pairs ensures c.pairs[k] !in c.picks {
      assert c.pairs[k] !in Elems(c.picks);
    }
  }

  /** After pairing `who` with a fitting target, no target is taken twice. */
  lemma ChildInjective(s: State, who: string, pick: string, b: Block)
    requires PairsApart(s) && ForcedFree(s) && who in s.unpaired && Fits(s, who, pick)
    ensures Injective(Child(s, who, pick, b).pairs)
  {
    var m := s.pairs[who := pick];
    assert who !in s.pairs;
    forall x, y | x in m && y in m && x != y ensures m[x] != m[y] {
      if x == who {
        assert y in s.pairs && m[y] == s.pairs[y];
      } else if y == who {
        assert x in s.pairs && m[x] == s.pairs[x];
      } else {
        assert m[x] == s.pairs[x] && m[y] == s.pairs[y];
      }
    }
  }

  /** Pairing an unpaired participant with a fitting target keeps the pairs apart from what is left. */
  lemma ChildPairs(s: State, who: string, pick: string, b: Block)
    requires Inv(s) && who in s.unpaired && Fits(s, who, pick)
    ensures PairsApart(Child(s, who, pick, b))
  {
    ChildUnpairedApart(s, who, pick, b);
    ChildPicksApart(s, who, pick, b);
    ChildInjective(s, who, pick, b);
  }

  /** Pairing an unpaired participant with a fitting target keeps the other forced targets free. */
  lemma ChildForced(s: State, who: string, pick: string, b: Block)
    requires Inv(s) && who in s.unpaired && Fits(s, who, pick)
    ensures ForcedFree(Child(s, who, pick, b))
  {
    var c := Child(s, who, pick, b);
    var f := s.fixed.entries;
    ChildLists(s, who, pick, b);
    forall w | w in c.unpaired && w in f ensures f[w] !in c.picks && f[w] != pick {
      assert w in Elems(c.unpaired);
      assert f[w] !in Elems(c.picks);
    }
    forall w, k | w in c.unpaired && w in f && k in c.pairs ensures c.pairs[k] != f[w] {
      assert w in Elems(c.unpaired);
    }
    forall a, x | a in c.unpaired && x in c.unpaired && a in f && x in f && a != x ensures f[a] != f[x] {
      assert a in Elems(c.unpaired) && x in Elems(c.unpaired);
    }
  }

  /** Pairing an unpaired participant with a fitting target keeps as many picks as unforced participants. */
  lemma ChildBalanced(s: State, who: string, pick: string, b: Block)
    requires Inv(s) && who in s.unpaired && Fits(s, who, pick)
    ensures Balanced(Child(s, who, pick, b))
  {
    var c := Child(s, who, pick, b);
    var keys := s.fixed.entries.Keys;
    ChildLists(s, who, pick, b);
    assert who in Elems(s.unpaired);
    if who in s.fixed.entries {
      assert Elems(c.unpaired) * keys == Elems(s.unpaired) * keys - {who};
      assert pick !in s.picks;
    } else {
      assert Elems(c.unpaired) * keys == Elems(s.unpaired) * keys;
    }
  }

  /** Every state the search passes to a recursive call satisfies the invariant. */
  lemma InvChild(s: State, who: string, pick: string, b: Block)
    requires Inv(s) && who in s.unpaired && Fits(s, who, pick)
    ensures Inv(Child(s, who, pick, b))
  {
    ChildLists(s, who, pick, b);
    ChildPairs(s, who, pick, b);
    ChildForced(s, who, pick, b);
    ChildBalanced(s, who, pick, b);
  }

  /** A completion of the child state gives every other participant of the parent a target that fits the parent. */
  lemma UpFits(q: map<string, string>, s: State, who: string, pick: string, b: Block, w: string)
    requires ListsDistinct(s) && who in s.unpaired && BlockGrows(s.block, b, who)
    requires Extends(q, Child(s, who, pick, b)) && w in s.unpaired && w != who
    ensures Fits(s, w, q[w])
  {
    var c := Child(s, who, pick, b);
    ChildLists(s, who, pick, b);
    assert w in Elems(c.unpaired);
    assert Fits(c, w, q[w]);
    if w !in s.fixed.entries {
      assert q[w] in Elems(c.picks);
    }
  }

  /** A completion of the child state, which pairs `who` with a fitting `pick`, completes the parent state too. */
  lemma ExtendsUp(q: map<string, string>, s: State, who: string, pick: string, b: Block)
    requires ListsDistinct(s) && PairsApart(s) && who in s.unpaired && Fits(s, who, pick) && BlockGrows(s.block, b, who)
    requires Extends(q, Child(s, who, pick, b))
    ensures Extends(q, s) && who in q && q[who] == pick
  {
    ChildLists(s, who, pick, b);
    assert who in Elems(s.unpaired) && who !in s.pairs;
    forall w | w in s.unpaired ensures Fits(s, w, q[w]) {
      if w != who {
        UpFits(q, s, who, pick, b, w);
      }
    }
  }

  /** A completion of the parent state gives every other unpaired participant a target that fits the child. */
  lemma DownFits(q: map<string, string>, s: State, who: string, b: Block, w: string)
    requires ListsDistinct(s) && who in s.unpaired && BlockGrows(s.block, b, who)
    requires Extends(q, s) && w in Child(s, who, q[who], b).unpaired
    ensures Fits(Child(s, who, q[who], b), w, q[w])
  {
    assert who in Elems(s.unpaired);
    var c := Child(s, who, q[who], b);
    ChildLists(s, who, q[who], b);
    assert w in Elems(c.unpaired);
    assert Fits(s, w, q[w]);
    if w !in s.fixed.entries {
      assert q[w] in Elems(s.picks) - {q[who]};
    }
  }

  /** A completion of the parent state covers exactly the participants of the child state. */
  lemma DownKeys(q: map<string, string>, s: State, who: string, b: Block)
    requires ListsDistinct(s) && who in s.unpaired && Extends(q, s)
    ensures who in q
    ensures q.Keys == Child(s, who, q[who], b).pairs.Keys + Elems(Child(s, who, q[who], b).unpaired)
  {
    assert who in Elems(s.unpaired);
    ChildLists(s, who, q[who], b);
  }

  /** A completion of the parent state gives every unpaired participant of the child a fitting target. */
  lemma DownFitsAll(q: map<string, string>, s: State, who: string, b: Block)
    requires ListsDistinct(s) && who in s.unpaired && BlockGrows(s.block, b, who) && Extends(q, s)
    ensures who in q
    ensures forall w :: w in Child(s, who, q[who], b).unpaired ==> w in q && Fits(Child(s, who, q[who], b), w, q[w])
  {
    assert who in Elems(s.unpaired);
    var c := Child(s, who, q[who], b);
    forall w | w in c.unpaired ensures w in q && Fits(c, w, q[w]) {
      DownFits(q, s, who, b, w);
      ChildLists(s, who, q[who], b);
      assert w in Elems(c.unpaired);
    }
  }

  /** A completion of the parent state completes the child state that pairs `who` as the completion does. */
  lemma ExtendsDown(q: map<string, string>, s: State, who: string, b: Block)
    requires ListsDistinct(s) && who in s.unpaired && BlockGrows(s.block, b, who)
    requires Extends(q, s)
    ensures who in q && Extends(q, Child(s, who, q[who], b))
  {
    DownKeys(q, s, who, b);
    DownFitsAll(q, s, who, b);
  }

  /** A completion gives every unpaired participant a target that fits. */
  lemma WhoFits(q: map<string, string>, s: State, who: string)
    requires who in s.unpaired
    ensures Extends(q, s) ==> who in q && Fits(s, who, q[who])
  {
    assert who in Elems(s.unpaired);
  }

  /** When the child state that pairs `who` with `pick` has no completion, no completion of the parent pairs them. */
  lemma DeadPick(s: State, who: string, pick: string, b: Block)
    requires ListsDistinct(s) && who in s.unpaired && BlockGrows(s.block, b, who)
    requires NoCompletion(Child(s, who, pick, b))
    ensures Dead(s, who, pick)
  {
    forall q | Extends(q, s) && who in q ensures q[who] != pick {
      ExtendsDown(q, s, who, b);
    }
  }

  /** A forced participant whose forced pairing has no completion leaves the state with none. */
  lemma ForcedDead(s: State, who: string, b: Block)
    requires ListsDistinct(s) && who in s.unpaired && who in s.fixed.entries && BlockGrows(s.block, b, who)
    requires NoCompletion(Child(s, who, s.fixed.entries[who], b))
    ensures NoCompletion(s)
  {
    DeadPick(s, who, s.fixed.entries[who], b);
    forall q ensures !Extends(q, s) {
      WhoFits(q, s, who);
    }
  }

  /** An unforced participant with no allowed pick left that is not already known to be dead leaves the state with no completion. */
  lemma Exhausted(s: State, who: string, cur: Block)
    requires who in s.unpaired && who !in s.fixed.entries && BlockGrows(s.block, cur, who)
    requires Legal(who, s.picks, cur) == []
    requires forall t :: t in BlockOf(cur, who) && t !in BlockOf(s.block, who) ==> Dead(s, who, t)
    ensures NoCompletion(s)
  {
    forall q ensures !Extends(q, s) {
      WhoFits(q, s, who);
      if who in q {
        LegalMembers(who, s.picks, cur, q[who]);
      }
    }
  }

  /** With no one left to pair and no pick left, the chosen pairs complete the state. */
  lemma BaseFound(s: State)
    requires Inv(s) && s.unpaired == [] && s.picks == []
    ensures Extends(s.pairs, s)
  {
    assert Elems(s.unpaired) == {};
  }

  /** With no one left to pair, no pick is left either. */
  lemma NoPicksLeft(s: State)
    requires Inv(s) && s.unpaired == []
    ensures s.picks == []
  {
    assert Elems(s.unpaired) == {};
  }

  /** Blocking `pick` for `who` grows the block set of `who` by `pick` alone. */
  lemma BlockGrowsAdd(b: Block, cur: Block, who: string, pick: string)
    requires BlockGrows(b, cur, who)
    ensures BlockGrows(b, AddBlock(cur, who, pick), who)
    ensures BlockOf(AddBlock(cur, who, pick), who) == BlockOf(cur, who) + {pick}
  {
    AddBlockOf(cur, who, pick, who);
    forall w | w != who ensures BlockOf(AddBlock(cur, who, pick), w) == BlockOf(b, w) {
      AddBlockOf(cur, who, pick, w);
    }
  }

  // ---------------------------------------------------------------------
  // What one call of the search establishes, step by step.
  // ---------------------------------------------------------------------

  /** What a call of the search answers for a state that satisfies the invariant: a completion, a proof that there is none, or out of fuel. */
  ghost predicate Answers(s: State, o: Outcome) {
    Inv(s) ==>
      || (o.Found? && Extends(o.pairs, s))
      || (o.NoPairing? && NoCompletion(s))
      || o.OutOfFuel?
  }

  /** The picks blocked for `who` since the call began are dead ends. */
  ghost predicate Tried(s: State, who: string, cur: Block) {
    && BlockGrows(s.block, cur, who)
    && (Inv(s) ==> forall t :: t in BlockOf(cur, who) && t !in BlockOf(s.block, who) ==> Dead(s, who, t))
  }

  /** A pick offered by `eligible_for` fits the state. */
  lemma OptionFits(s: State, who: string, cur: Block, pick: string)
    requires BlockGrows(s.block, cur, who)
    requires pick in Options(who, s.picks, s.fixed, cur)
    ensures Fits(s, who, pick)
    ensures who !in s.fixed.entries ==> pick in s.picks && pick !in BlockOf(cur, who)
  {
    OptionsMembers(who, s.picks, s.fixed, cur, pick);
  }

  /** A pairing with no one left to pair and no pick left answers the state... */
  lemma BaseAnswers(s: State)
    requires s.unpaired == [] && s.picks == []
    ensures Answers(s, Found(s.pairs))
  {
    if Inv(s) {
      BaseFound(s);
    }
  }

  /** ...and picks left over for no one cannot happen under the invariant. */
  lemma LeftOverAnswers(s: State)
    requires s.unpaired == [] && s.picks != []
    ensures Answers(s, EmptyChoice)
  {
    if Inv(s) {
      NoPicksLeft(s);
    }
  }

  /** The recursive call receives a state that satisfies the invariant when its caller's does. */
  lemma ChildInv(s: State, who: string, pick: string, cur: Block)
    requires who in s.unpaired && Fits(s, who, pick)
    ensures Inv(s) ==> Inv(Child(s, who, pick, cur))
  {
    if Inv(s) {
      InvChild(s, who, pick, cur);
    }
  }

  /** A pairing found by the recursive call answers the caller's state. */
  lemma FoundAnswers(s: State, who: string, pick: string, cur: Block, o: Outcome)
    requires who in s.unpaired && Fits(s, who, pick) && BlockGrows(s.block, cur, who)
    requires Answers(Child(s, who, pick, cur), o) && !o.NoPairing?
    ensures Answers(s, o)
  {
    if Inv(s) {
      ChildInv(s, who, pick, cur);
      if o.Found? {
        ExtendsUp(o.pairs, s, who, pick, cur);
      }
    }
  }

  /** A failed recursive call makes its pick one more dead end, and blocking it keeps the record of dead ends. */
  lemma FailedTried(s: State, who: string, pick: string, cur: Block)
    requires who in s.unpaired && Fits(s, who, pick) && Tried(s, who, cur)
    requires Answers(Child(s, who, pick, cur), NoPairing)
    ensures Tried(s, who, AddBlock(cur, who, pick))
  {
    BlockGrowsAdd(s.block, cur, who, pick);
    if Inv(s) {
      ChildInv(s, who, pick, cur);
      DeadPick(s, who, pick, cur);
    }
  }

  /** A failed recursive call for a forced participant leaves the caller's state with no completion. */
  lemma ForcedAnswers(s: State, who: string, cur: Block)
    requires who in s.unpaired && who in s.fixed.entries && BlockGrows(s.block, cur, who)
    requires Answers(Child(s, who, s.fixed.entries[who], cur), NoPairing)
    ensures Answers(s, NoPairing)
  {
    if Inv(s) {
      ChildInv(s, who, s.fixed.entries[who], cur);
      ForcedDead(s, who, cur);
    }
  }

  /** An unforced participant with no option left leaves the state with no completion. */
  lemma ExhaustedAnswers(s: State, who: string, cur: Block)
    requires who in s.unpaired && who !in s.fixed.entries && Tried(s, who, cur)
    requires Legal(who, s.picks, cur) == []
    ensures Answers(s, NoPairing)
  {
    if Inv(s) {
      Exhausted(s, who, cur);
    }
  }

  /** The state has a completion. */
  ghost predicate Completable(s: State) {
    exists q :: Extends(q, s)
  }

  /** A call of the search on a state that satisfies the invariant and has a completion finds a pairing. */
  ghost predicate Decides(s: State, o: Outcome) {
    Inv(s) && Completable(s) ==> o.Found?
  }

  /** A forced key that is unpaired makes the priority scan find someone. */
  lemma ForcedFirst(keys: seq<string>, unpaired: seq<string>, who: string)
    requires who in unpaired && who in keys
    ensures FirstFrom(keys, unpaired, 0).Some?
  {
    FirstFromNone(keys, unpaired, 0);
    var j :| 0 <= j < |keys| && keys[j] == who;
  }

  /** With no forced key unpaired, none is unpaired after `who` is removed either. */
  lemma FirstFromRemove(keys: seq<string>, unpaired: seq<string>, who: string)
    requires who in unpaired
    ensures FirstFrom(keys, unpaired, 0).None? ==> FirstFrom(keys, RemoveFirst(unpaired, who), 0).None?
  {
    FirstFromNone(keys, unpaired, 0);
    FirstFromNone(keys, RemoveFirst(unpaired, who), 0);
    forall x | x in RemoveFirst(unpaired, who) ensures x in unpaired {
      assert multiset(RemoveFirst(unpaired, who))[x] > 0;
    }
  }

  /** A completion of the state gives a forced participant their target, so it completes the child for that target. */
  lemma ForcedCompletable(s: State, who: string, cur: Block)
    requires ListsDistinct(s) && who in s.unpaired && who in s.fixed.entries && BlockGrows(s.block, cur, who)
    ensures Completable(s) ==> Completable(Child(s, who, s.fixed.entries[who], cur))
  {
    if Completable(s) {
      var q :| Extends(q, s);
      ExtendsDown(q, s, who, cur);
      WhoFits(q, s, who);
    }
  }

  /** A result of the recursive call other than a failure decides the caller's state. */
  lemma FoundDecides(s: State, who: string, pick: string, cur: Block, o: Outcome)
    requires who in s.unpaired && Fits(s, who, pick) && BlockGrows(s.block, cur, who)
    requires Answers(Child(s, who, pick, cur), o) && Decides(Child(s, who, pick, cur), o)
    requires !o.NoPairing? && (who !in s.fixed.entries ==> !o.OutOfFuel?)
    ensures Decides(s, o)
  {
    if Inv(s) && Completable(s) {
      ChildInv(s, who, pick, cur);
      if who in s.fixed.entries {
        ForcedCompletable(s, who, cur);
      }
    }
  }

  /** A state with no completion is decided by any result. */
  lemma FailedDecides(s: State, o: Outcome)
    requires Answers(s, NoPairing)
    ensures Decides(s, o)
  {
  }

  // ---------------------------------------------------------------------
  // The search.
  // ---------------------------------------------------------------------

  /**
   * `gen_pairs_rec`. Under the invariant, a pairing it finds completes the
   * state, a failure means that the state has no completion, and a state
   * with a completion is always completed. Only a forced participant's
   * retries spend fuel, so once no forced participant is left unpaired the
   * search runs out of none. With `GiveUp` it always finishes; as written
   * (`RetryForever`), a forced participant is never given up on: the search
   * then either finds a pairing or runs out of fuel.
   */
  method GenPairsRec(pairs: map<string, string>, unpaired: seq<string>, picksLeft: seq<string>,
                     fixed: ForceTable, block: Block, mode: ForcedRetry, fuel: nat)
    returns (o: Outcome)
    requires fixed.Ordered()
    ensures Answers(State(pairs, unpaired, picksLeft, fixed, block), o)
    ensures !o.NotInList?
    ensures mode == GiveUp ==> !o.OutOfFuel?
    ensures Decides(State(pairs, unpaired, picksLeft, fixed, block), o)
    ensures FirstFrom(fixed.keys, unpaired, 0).None? ==> !o.OutOfFuel?
    ensures mode == RetryForever && FirstFrom(fixed.keys, unpaired, 0).Some? ==> !o.NoPairing?
    decreases |unpaired|
  {
    ghost var s := State(pairs, unpaired, picksLeft, fixed, block);
    if |unpaired| == 0 && |picksLeft| == 0 {
      BaseAnswers(s);
      return Found(pairs);
    }
    if |unpaired| == 0 {
      LeftOverAnswers(s);
      return EmptyChoice;
    }
    assert unpaired[0] in unpaired;
    var who :| who in unpaired;
    who := Prioritize(fixed.keys, unpaired, who);
    FirstFromFound(fixed.keys, unpaired, 0);
    assert FirstFrom(fixed.keys, unpaired, 0).Some? ==> who in Elems(fixed.keys);
    if who in fixed.entries {
      assert who in Elems(fixed.keys);
      ForcedFirst(fixed.keys, unpaired, who);
    }
    var current := block;
    var left := fuel;
    var options := EligibleFor(who, picksLeft, fixed, current);
    while |options| > 0
      invariant Tried(s, who, current)
      invariant options == Options(who, picksLeft, fixed, current)
      decreases left, Elems(picksLeft) - BlockOf(current, who)
    {
      assert options[0] in options;
      var pick :| pick in options;
      OptionFits(s, who, current, pick);
      var pairsNext := pairs[who := pick];
      var unpairedNext := if who in unpaired then RemoveFirst(unpaired, who) else unpaired;
      var picksNext := if pick in picksLeft then RemoveFirst(picksLeft, pick) else picksLeft;
      var ret := GenPairsRec(pairsNext, unpairedNext, picksNext, fixed, current, mode, fuel);
      FirstFromRemove(fixed.keys, unpaired, who);
      if !ret.NoPairing? {
        FoundAnswers(s, who, pick, current, ret);
        FoundDecides(s, who, pick, current, ret);
        return ret;
      }
      FailedTried(s, who, pick, current);
      if who in fixed.entries {
        ForcedAnswers(s, who, current);
        FailedDecides(s, NoPairing);
        if mode == GiveUp {
          return NoPairing;
        }
        if left == 0 {
          FailedDecides(s, OutOfFuel);
          return OutOfFuel;
        }
        left := left - 1;
      }
      BlockGrowsAdd(block, current, who, pick);
      current := AddBlock(current, who, pick);
      options := EligibleFor(who, picksLeft, fixed, current);
    }
    ExhaustedAnswers(s, who, current);
    FailedDecides(s, NoPairing);
    return NoPairing;
  }

  // ---------------------------------------------------------------------
  // The whole search, from the loaded configuration.
  // ---------------------------------------------------------------------

  /** What the search's caller provides: participants without repetitions, and forced pairs among them. */
  ghost predicate Setup(names: seq<string>, fixed: ForceTable) {
    Distinct(names) && fixed.Ordered() && fixed.entries.Keys <= Elems(names)
  }

  /**
   * A secret-pairs assignment: everyone gives to one participant, no one
   * receives twice, forced participants give to their forced target, and
   * everyone else gives to someone other than themselves that they are not
   * blocked from.
   */
  ghost predicate ValidPairing(names: seq<string>, fixed: ForceTable, block: Block, q: map<string, string>) {
    && q.Keys == Elems(names)
    && (forall k :: k in q ==> q[k] in names)
    && Injective(q)
    && (forall k :: k in q && k in fixed.entries ==> q[k] == fixed.entries[k])
    && (forall k :: k in q && k !in fixed.entries ==> Allowed(k, block, q[k]))
  }

  /** The first state of the search. */
  ghost function Start(names: seq<string>, picks: seq<string>, fixed: ForceTable, block: Block): State {
    State(map[], names, picks, fixed, block)
  }

  /** A forced target is one of the values of the forced pairs. */
  lemma ForcedTargetIn(fixed: ForceTable, w: string)
    requires fixed.Ordered() && w in fixed.entries
    ensures fixed.entries[w] in Elems(Values(fixed))
  {
    assert w in Elems(fixed.keys);
    var i :| 0 <= i < |fixed.keys| && fixed.keys[i] == w;
    assert Values(fixed)[i] == fixed.entries[w];
  }

  /** Distinct forced participants have distinct forced targets when the removals succeed. */
  lemma ForcedTargetsDistinct(names: seq<string>, fixed: ForceTable, a: string, b: string)
    requires Distinct(names) && fixed.Ordered() && Without(names, Values(fixed)).Some?
    requires a in fixed.entries && b in fixed.entries && a != b
    ensures fixed.entries[a] != fixed.entries[b]
  {
    WithoutTargetsDistinct(names, Values(fixed));
    assert a in Elems(fixed.keys) && b in Elems(fixed.keys);
    var i :| 0 <= i < |fixed.keys| && fixed.keys[i] == a;
    var j :| 0 <= j < |fixed.keys| && fixed.keys[j] == b;
    assert Values(fixed)[i] == fixed.entries[a] && Values(fixed)[j] == fixed.entries[b];
  }

  /** The first state of the search satisfies the invariant. */
  lemma StartInv(names: seq<string>, fixed: ForceTable, block: Block, picks: seq<string>)
    requires Setup(names, fixed) && Without(names, Values(fixed)) == Some(picks)
    ensures Inv(Start(names, picks, fixed, block))
  {
    var s := Start(names, picks, fixed, block);
    var f := fixed.entries;
    WithoutDistinct(names, Values(fixed));
    forall w | w in names && w in f ensures f[w] !in picks {
      ForcedTargetIn(fixed, w);
      assert f[w] !in Elems(picks);
    }
    forall a, b | a in names && b in names && a in f && b in f && a != b ensures f[a] != f[b] {
      ForcedTargetsDistinct(names, fixed, a, b);
    }
    assert Elems(names) * f.Keys == Elems(fixed.keys);
    DistinctCard(fixed.keys);
  }

  /** The first state has paired no one. */
  lemma StartKeys(names: seq<string>, picks: seq<string>, fixed: ForceTable, block: Block)
    ensures Start(names, picks, fixed, block).pairs.Keys + Elems(names) == Elems(names)
  {
    assert Start(names, picks, fixed, block).pairs.Keys == {};
    UnionEmpty(Elems(names));
  }

  /** A completion of the first state is a valid pairing. */
  lemma StartExtendsValid(names: seq<string>, fixed: ForceTable, block: Block, picks: seq<string>, q: map<string, string>)
    requires Setup(names, fixed) && Without(names, Values(fixed)) == Some(picks)
    requires Extends(q, Start(names, picks, fixed, block))
    ensures ValidPairing(names, fixed, block, q)
  {
    var s := Start(names, picks, fixed, block);
    StartKeys(names, picks, fixed, block);
    WithoutDistinct(names, Values(fixed));
    WithoutTargetsIn(names, Values(fixed));
    forall k | k in q ensures q[k] in names {
      assert k in Elems(names) && k in names;
      assert Fits(s, k, q[k]);
      if k in fixed.entries {
        ForcedTargetIn(fixed, k);
      } else {
        assert q[k] in Elems(picks);
      }
    }
    forall k | k in q ensures k in fixed.entries ==> q[k] == fixed.entries[k]
      ensures k !in fixed.entries ==> Allowed(k, block, q[k])
    {
      assert k in Elems(names) && k in names;
      assert Fits(s, k, q[k]);
    }
  }

  /** A valid pairing gives no unforced participant a forced target, so their target is still a pick. */
  lemma ValidUnforcedPick(names: seq<string>, fixed: ForceTable, block: Block, picks: seq<string>, q: map<string, string>, w: string)
    requires Setup(names, fixed) && Without(names, Values(fixed)) == Some(picks)
    requires ValidPairing(names, fixed, block, q) && w in q && w !in fixed.entries
    ensures q[w] in picks
  {
    WithoutDistinct(names, Values(fixed));
    assert q[w] in Elems(names);
    forall i | 0 <= i < |Values(fixed)| ensures Values(fixed)[i] != q[w] {
      var k := fixed.keys[i];
      assert k in Elems(fixed.keys);
      assert Values(fixed)[i] == q[k];
    }
    assert q[w] in Elems(picks);
  }

  /** A valid pairing completes the first state. */
  lemma ValidStartExtends(names: seq<string>, fixed: ForceTable, block: Block, picks: seq<string>, q: map<string, string>)
    requires Setup(names, fixed) && Without(names, Values(fixed)) == Some(picks)
    requires ValidPairing(names, fixed, block, q)
    ensures Extends(q, Start(names, picks, fixed, block))
  {
    var s := Start(names, picks, fixed, block);
    forall w | w in names ensures w in q && Fits(s, w, q[w]) {
      assert w in Elems(names);
      if w !in fixed.entries {
        ValidUnforcedPick(names, fixed, block, picks, q, w);
      }
    }
    StartKeys(names, picks, fixed, block);
  }

  /** What the search answers for its first state is an answer about valid pairings. */
  lemma StartAnswers(names: seq<string>, fixed: ForceTable, block: Block, picks: seq<string>, o: Outcome)
    requires Setup(names, fixed) && Without(names, Values(fixed)) == Some(picks)
    requires Answers(Start(names, picks, fixed, block), o)
    ensures o.Found? || o.NoPairing? || o.OutOfFuel?
    ensures o.Found? ==> ValidPairing(names, fixed, block, o.pairs)
    ensures o.NoPairing? ==> forall q :: !ValidPairing(names, fixed, block, q)
  {
    StartInv(names, fixed, block, picks);
    if o.Found? {
      StartExtendsValid(names, fixed, block, picks, o.pairs);
    }
    forall q | ValidPairing(names, fixed, block, q) ensures Extends(q, Start(names, picks, fixed, block)) {
      ValidStartExtends(names, fixed, block, picks, q);
    }
  }

  /** An injective map has as many distinct targets as keys. */
  lemma {:induction false} InjectiveSize(q: map<string, string>)
    requires Injective(q)
    ensures |q.Values| == |q.Keys|
    decreases |q.Keys|
  {
    if q.Keys != {} {
      var k :| k in q.Keys;
      var r := q - {k};
      assert r.Keys == q.Keys - {k};
      forall v ensures v in r.Values <==> v in q.Values - {q[k]} {
        if v in r.Values {
          var j :| j in r && r[j] == v;
          assert q[j] == v && j != k;
        }
        if v in q.Values - {q[k]} {
          var j :| j in q && q[j] == v;
          assert j != k && r[j] == v;
        }
      }
      assert r.Values == q.Values - {q[k]};
      InjectiveSize(r);
    } else {
      assert q.Values == {};
    }
  }

  /** A valid pairing is a bijection: everyone receives from exactly one participant. */
  lemma ValidPairingOnto(names: seq<string>, fixed: ForceTable, block: Block, q: map<string, string>)
    requires ValidPairing(names, fixed, block, q)
    ensures q.Values == Elems(names)
  {
    InjectiveSize(q);
    forall v | v in q.Values ensures v in Elems(names) {
      var k :| k in q && q[k] == v;
      assert q[k] in names;
    }
    SubsetSameSize(q.Values, Elems(names));
  }

  /** On a list without repetitions, the forced targets can all be removed exactly when they are distinct participants. */
  lemma WithoutDistinctTargets(s: seq<string>, vs: seq<string>)
    requires Distinct(s)
    ensures Without(s, vs).Some? <==> Distinct(vs) && Elems(vs) <= Elems(s)
  {
    WithoutMultiset(s, vs);
    if Without(s, vs).Some? {
      WithoutTargetsDistinct(s, vs);
      WithoutTargetsIn(s, vs);
    }
    if Distinct(vs) && Elems(vs) <= Elems(s) {
      DistinctSubMultiset(vs, s);
    }
  }

  /** The removal of `vs[i]` is the one that raises: the removals before it succeed and leave no `vs[i]`. */
  ghost predicate RemovalFails(s: seq<string>, vs: seq<string>, i: nat) {
    i < |vs| && Without(s, vs[..i]).Some? && vs[i] !in Without(s, vs[..i]).value
  }

  /** When a valid pairing exists, every forced target can be removed from the participants. */
  lemma PairingTargetsRemovable(names: seq<string>, fixed: ForceTable, block: Block)
    requires Setup(names, fixed)
    ensures (exists q :: ValidPairing(names, fixed, block, q)) ==> Without(names, Values(fixed)).Some?
  {
    if q :| ValidPairing(names, fixed, block, q) {
      ValidTargetsRemovable(names, fixed, block, q);
    }
  }

  /** The forced targets of a valid pairing are distinct participants, so all of them can be removed. */
  lemma ValidTargetsRemovable(names: seq<string>, fixed: ForceTable, block: Block, q: map<string, string>)
    requires Setup(names, fixed) && ValidPairing(names, fixed, block, q)
    ensures Without(names, Values(fixed)).Some?
  {
    var vs := Values(fixed);
    forall i | 0 <= i < |vs| ensures fixed.keys[i] in q && vs[i] == q[fixed.keys[i]] {
      assert fixed.keys[i] in Elems(fixed.keys);
    }
    forall i, j | 0 <= i < j < |vs| ensures vs[i] != vs[j] {
      assert fixed.keys[i] != fixed.keys[j];
    }
    forall v | v in Elems(vs) ensures v in Elems(names) {
      var i :| 0 <= i < |vs| && vs[i] == v;
    }
    WithoutDistinctTargets(names, vs);
  }

  /** When a valid pairing exists, the first state of the search has a completion. */
  lemma StartCompletable(names: seq<string>, fixed: ForceTable, block: Block, picks: seq<string>)
    requires Setup(names, fixed) && Without(names, Values(fixed)) == Some(picks)
    ensures (exists q :: ValidPairing(names, fixed, block, q)) ==> Completable(Start(names, picks, fixed, block))
  {
    if q :| ValidPairing(names, fixed, block, q) {
      ValidStartExtends(names, fixed, block, picks, q);
    }
  }

  /** The first loop of `gen_pairs`: `picks_left.remove(pick)` for each forced target, in order. */
  method RemoveTargets(names: seq<string>, targets: seq<string>) returns (r: Option<seq<string>>, missing: string)
    ensures r == Without(names, targets)
    ensures r.None? ==> exists i: nat :: RemovalFails(names, targets, i) && targets[i] == missing
  {
    var picksLeft := names;
    var i := 0;
    while i < |targets|
      invariant i <= |targets|
      invariant Without(names, targets[..i]) == Some(picksLeft)
    {
      var pick := targets[i];
      TakeOneMore(targets, i);
      if pick !in picksLeft {
        assert RemovalFails(names, targets, i);
        WithoutPrefix(names, targets, i + 1);
        return None, pick;
      }
      picksLeft := RemoveFirst(picksLeft, pick);
      i := i + 1;
    }
    TakeAll(targets);
    return Some(picksLeft), "";
  }

  /**
   * `gen_pairs`: remove every forced target from the picks, then search.
   * For participants without repetitions and forced pairs among them, a
   * pairing it returns is valid, a failure means that no valid pairing
   * exists, and when one exists it is found, in either mode. As written,
   * it fails only when no participant is forced; otherwise, without a
   * valid pairing, it runs out of fuel. A failed removal names the first
   * forced target that cannot be removed.
   */
  method GenPairs(names: seq<string>, fixed: ForceTable, block: Block, mode: ForcedRetry, fuel: nat)
    returns (o: Outcome)
    requires fixed.Ordered()
    ensures o.NotInList? <==> Without(names, Values(fixed)).None?
    ensures o.NotInList? ==> exists i: nat :: RemovalFails(names, Values(fixed), i) && Values(fixed)[i] == o.name
    ensures Setup(names, fixed) ==> o.Found? || o.NoPairing? || o.NotInList? || o.OutOfFuel?
    ensures Setup(names, fixed) && o.Found? ==> ValidPairing(names, fixed, block, o.pairs)
    ensures Setup(names, fixed) && o.NoPairing? ==> forall q :: !ValidPairing(names, fixed, block, q)
    ensures Setup(names, fixed) && (exists q :: ValidPairing(names, fixed, block, q)) ==> o.Found?
    ensures mode == GiveUp ==> !o.OutOfFuel?
    ensures mode == RetryForever && o.NoPairing? ==> forall k :: k in fixed.entries ==> k !in names
  {
    var unpaired := names;
    var picks, missing := RemoveTargets(names, Values(fixed));
    if picks.None? {
      if Setup(names, fixed) {
        PairingTargetsRemovable(names, fixed, block);
      }
      return NotInList(missing);
    }
    var picksLeft := picks.value;
    o := GenPairsRec(map[], unpaired, picksLeft, fixed, block, mode, fuel);
    if Setup(names, fixed) {
      StartAnswers(names, fixed, block, picksLeft, o);
      StartInv(names, fixed, block, picksLeft);
      StartCompletable(names, fixed, block, picksLeft);
    }
    FirstFromNone(fixed.keys, names, 0);
    assert forall k :: k in fixed.entries ==> k in Elems(fixed.keys);
  }

  // ---------------------------------------------------------------------
  // A configuration on which the search as written never finishes.
  // ---------------------------------------------------------------------

  /** Two participants; A must give to B, and B is blocked from A. */
  const DemoNames: seq<string> := ["A", "B"]
  const DemoFixed: ForceTable := Dict(["A"], map["A" := "B"])
  const DemoBlock: Block := map["B" := {"A"}]

  /** The demonstration configuration has no valid pairing: B may give to no one. */
  lemma DemoHasNoPairing()
    ensures forall q :: !ValidPairing(DemoNames, DemoFixed, DemoBlock, q)
  {
    forall q ensures !ValidPairing(DemoNames, DemoFixed, DemoBlock, q) {
      assert "B" in Elems(DemoNames);
      assert BlockOf(DemoBlock, "B") == {"A"};
    }
  }

  /** The removal of the forced targets succeeds on the demonstration configuration. */
  lemma DemoStarts()
    ensures Setup(DemoNames, DemoFixed)
    ensures Without(DemoNames, Values(DemoFixed)).Some?
  {
    assert Values(DemoFixed) == ["B"];
    assert Elems(DemoNames) == {"A", "B"};
    assert Elems(DemoFixed.keys) == {"A"};
  }

  /** As written, the search on the demonstration configuration runs out of any fuel: it retries A's forced pick forever. */
  method DemoAsWritten(fuel: nat) returns (o: Outcome)
    ensures o == OutOfFuel
  {
    DemoStarts();
    DemoHasNoPairing();
    o := GenPairs(DemoNames, DemoFixed, DemoBlock, RetryForever, fuel);
    assert "A" in DemoFixed.entries && "A" in DemoNames;
  }

  /** Giving up on a forced participant whose branch fails reports, correctly, that there is no pairing. */
  method DemoCorrected(fuel: nat) returns (o: Outcome)
    ensures o == NoPairing
  {
    DemoStarts();
    DemoHasNoPairing();
    o := GenPairs(DemoNames, DemoFixed, DemoBlock, GiveUp, fuel);
  }
}
