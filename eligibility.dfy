/** `eligible_for`: whom one participant may be given, under the forced and blocked pairs. */
module Eligibility {
  import opened Collections
  import opened Constraints

  /** `person` is not `name` and is not blocked for `name`. */
  predicate Allowed(name: string, block: Block, person: string) {
    person != name && person !in BlockOf(block, name)
  }

  /** The picks left that `name` may be given, in the order of `picks`. */
  ghost function Legal(name: string, picks: seq<string>, block: Block): seq<string> {
    if picks == [] then []
    else
      var last := picks[|picks| - 1];
      Legal(name, picks[..|picks| - 1], block) + if Allowed(name, block, last) then [last] else []
  }

  /** The options `eligible_for` returns: the forced target alone, or the allowed picks left. */
  ghost function Options(name: string, picks: seq<string>, fixed: ForceTable, block: Block): seq<string> {
    if name in fixed.entries then [fixed.entries[name]] else Legal(name, picks, block)
  }

  /** The allowed picks are exactly the picks left that are allowed. */
  lemma {:induction false} LegalMembers(name: string, picks: seq<string>, block: Block, x: string)
    ensures x in Legal(name, picks, block) <==> x in picks && Allowed(name, block, x)
  {
    if picks != [] {
      var n := |picks| - 1;
      LegalMembers(name, picks[..n], block, x);
      assert picks == picks[..n] + [picks[n]];
    }
  }

  /** No pick is offered more often than it is left. */
  lemma {:induction false} LegalSubMultiset(name: string, picks: seq<string>, block: Block)
    ensures multiset(Legal(name, picks, block)) <= multiset(picks)
  {
    if picks != [] {
      var n := |picks| - 1;
      LegalSubMultiset(name, picks[..n], block);
      assert picks == picks[..n] + [picks[n]];
    }
  }

  /** A participant's options are their forced target, or else the picks left allowed for them. */
  lemma OptionsMembers(name: string, picks: seq<string>, fixed: ForceTable, block: Block, x: string)
    ensures x in Options(name, picks, fixed, block) <==>
      if name in fixed.entries then x == fixed.entries[name] else x in picks && Allowed(name, block, x)
  {
    LegalMembers(name, picks, block, x);
  }

  /**
   * `eligible_for`: a forced participant gets their forced target alone;
   * anyone else gets every pick left that is neither themselves nor blocked
   * for them, in order. A forced target is returned even when it is blocked
   * or no longer among the picks left.
   */
  method EligibleFor(name: string, picks: seq<string>, fixed: ForceTable, block: Block) returns (finals: seq<string>)
    ensures name in fixed.entries ==> finals == [fixed.entries[name]]
    ensures name !in fixed.entries ==> finals == Legal(name, picks, block)
  {
    if name in fixed.entries {
      return [fixed.entries[name]];
    }
    finals := [];
    var i := 0;
    while i < |picks|
      invariant 0 <= i <= |picks|
      invariant finals == Legal(name, picks[..i], block)
    {
      var person := picks[i];
      assert picks[..i + 1][..i] == picks[..i];
      i := i + 1;
      if person == name {
        continue;
      }
      if name in block && person in block[name] {
        continue;
      }
      finals := finals + [person];
    }
    assert picks[..i] == picks;
  }

  /** After a failed pick is blocked, an unforced participant is offered the same picks less that one. */
  lemma RetryDropsPick(name: string, picks: seq<string>, fixed: ForceTable, block: Block, pick: string)
    requires name !in fixed.entries && pick in Options(name, picks, fixed, block)
    ensures Elems(Options(name, picks, fixed, AddBlock(block, name, pick))) == Elems(Options(name, picks, fixed, block)) - {pick}
  {
    var after := AddBlock(block, name, pick);
    AddBlockOf(block, name, pick, name);
    forall x ensures x in Elems(Legal(name, picks, after)) <==> x in Elems(Legal(name, picks, block)) - {pick} {
      LegalMembers(name, picks, after, x);
      LegalMembers(name, picks, block, x);
    }
  }

  /** Blocking a failed pick changes nothing for a forced participant: they are offered their forced target again. */
  lemma RetryKeepsForced(name: string, picks: seq<string>, fixed: ForceTable, block: Block, pick: string)
    requires name in fixed.entries
    ensures Options(name, picks, fixed, AddBlock(block, name, pick)) == Options(name, picks, fixed, block) == [fixed.entries[name]]
  {
  }
}
