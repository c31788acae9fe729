/** The early trader (`GrantCyberneticWedge.CyberneticTrader`): items with a
    mutation part are valued by how many stat changes the mutation grants,
    through a three-tier table capped at 3, and paid in one wedge stack. */
module GrantCyberneticWedge {
  import opened Host
  import Seqs

  datatype Tier = Low | Mid | High

  /** The tiers in order, for stating monotonicity. */
  function Rank(t: Tier): nat {
    match t
    case Low => 0
    case Mid => 1
    case High => 2
  }

  /** `TierValues`. */
  const TierValues: map<Tier, int> := map[Low := 1, Mid := 2, High := 3]

  /** The cap on wedges per implant. */
  const MaxChips := 3

  /** `DetermineTier`: fewer than 2 stat changes is Low, 2 or 3 is Mid, 4 or more is High. */
  function DetermineTier(statChanges: nat): (t: Tier)
    ensures t == Low <==> statChanges < 2
    ensures t == High <==> statChanges >= 4
  {
    if statChanges < 2 then Low
    else if statChanges < 4 then Mid
    else High
  }

  /** More stat changes never give a lower tier. */
  lemma DetermineTierMonotone(a: nat, b: nat)
    requires a <= b
    ensures Rank(DetermineTier(a)) <= Rank(DetermineTier(b))
  {
  }

  /** `Mathf.Min(TierValues[tier], 3)`, whatever the table holds for the tier. */
  function CappedChips(values: map<Tier, int>, tier: Tier): (r: int)
    requires tier in values
    ensures r <= MaxChips
    ensures r == values[tier] || r == MaxChips
    ensures values[tier] <= MaxChips ==> r == values[tier]
  {
    if values[tier] < MaxChips then values[tier] else MaxChips
  }

  /** Wedges for a mutation granting `statChanges` stat changes: with the
      shipped table 1 to 3, one more than the tier's rank, so the cap never bites. */
  function Chips(statChanges: nat): (r: int)
    ensures 1 <= r <= MaxChips
    ensures r == Rank(DetermineTier(statChanges)) + 1
    ensures r == TierValues[DetermineTier(statChanges)]
  {
    CappedChips(TierValues, DetermineTier(statChanges))
  }

  /** More stat changes never earn fewer wedges. */
  lemma ChipsMonotone(a: nat, b: nat)
    requires a <= b
    ensures Chips(a) <= Chips(b)
  {
    DetermineTierMonotone(a, b);
  }

  /** A candidate: an item with a mutation part whose blueprint is not redeemed. */
  predicate IsCandidate(item: Item, redeemed: set<string>) {
    item.mutation.Some? && item.blueprint !in redeemed
  }

  function CandidateMask(inventory: seq<Item>, redeemed: set<string>): seq<bool> {
    seq(|inventory|, i requires 0 <= i < |inventory| => IsCandidate(inventory[i], redeemed))
  }

  lemma CandidateMaskAt(inventory: seq<Item>, redeemed: set<string>)
    ensures |CandidateMask(inventory, redeemed)| == |inventory|
    ensures forall i :: 0 <= i < |inventory| ==>
      CandidateMask(inventory, redeemed)[i] == IsCandidate(inventory[i], redeemed)
  {
  }

  /** `implants`: the `FindAll` result, as indices in inventory order. */
  function Candidates(inventory: seq<Item>, redeemed: set<string>): seq<nat> {
    Seqs.Positions(CandidateMask(inventory, redeemed))
  }

  lemma CandidatesSnoc(inventory: seq<Item>, redeemed: set<string>, k: nat)
    requires k < |inventory|
    ensures Candidates(inventory[..k + 1], redeemed) ==
      Candidates(inventory[..k], redeemed) + (if IsCandidate(inventory[k], redeemed) then [k] else [])
  {
    var b := IsCandidate(inventory[k], redeemed);
    assert CandidateMask(inventory[..k + 1], redeemed) == CandidateMask(inventory[..k], redeemed) + [b];
    Seqs.PositionsSnoc(CandidateMask(inventory[..k], redeemed), b);
  }

  /** Candidates are exactly the unredeemed items with a mutation part; the
      first candidate is the earliest such item. */
  lemma CandidatesSpec(inventory: seq<Item>, redeemed: set<string>)
    ensures forall j :: 0 <= j < |Candidates(inventory, redeemed)| ==>
      Candidates(inventory, redeemed)[j] < |inventory| &&
      IsCandidate(inventory[Candidates(inventory, redeemed)[j]], redeemed)
    ensures forall i :: 0 <= i < |inventory| && IsCandidate(inventory[i], redeemed) ==>
      i in Candidates(inventory, redeemed)
    ensures Candidates(inventory, redeemed) == [] <==>
      forall i :: 0 <= i < |inventory| ==> !IsCandidate(inventory[i], redeemed)
    ensures Candidates(inventory, redeemed) != [] ==>
      forall i :: 0 <= i < Candidates(inventory, redeemed)[0] ==> !IsCandidate(inventory[i], redeemed)
  {
    CandidateMaskAt(inventory, redeemed);
    Seqs.PositionsFirst(CandidateMask(inventory, redeemed));
  }

  /** Once a blueprint is redeemed, no item of that blueprint is a candidate. */
  lemma RedeemedNeverCandidate(inventory: seq<Item>, redeemed: set<string>, blueprint: string)
    requires blueprint in redeemed
    ensures forall j :: 0 <= j < |Candidates(inventory, redeemed)| ==>
      inventory[Candidates(inventory, redeemed)[j]].blueprint != blueprint
  {
    CandidatesSpec(inventory, redeemed);
  }

  /** `ChooseImplant`: the first candidate; it never comes back empty, so
      the null check after it in `DoTrade` never fires. */
  function ChooseImplant(implants: seq<nat>): (chosen: Option<nat>)
    requires implants != []
    ensures chosen.Some? && chosen.value in implants
    ensures chosen.value == implants[0]
  {
    Some(implants[0])
  }

  /** The `FindAll` scan of `DoTrade`. The ledger is only consulted for items
      with a mutation part, so a null ledger throws (`None`) exactly when such
      an item is carried; otherwise the result is the candidate list. */
  method FindImplants(items: seq<Item>, ledger: Option<set<string>>) returns (found: Option<seq<nat>>)
    ensures ledger.Some? ==> found == Some(Candidates(items, ledger.value))
    ensures ledger.None? ==>
      (found.None? <==> exists i :: 0 <= i < |items| && items[i].mutation.Some?)
    ensures ledger.None? && found.Some? ==> found.value == []
  {
    var implants: seq<nat> := [];
    var k := 0;
    while k < |items|
      invariant 0 <= k <= |items|
      invariant ledger.Some? ==> implants == Candidates(items[..k], ledger.value)
      invariant ledger.None? ==> implants == [] && forall j :: 0 <= j < k ==> items[j].mutation.None?
    {
      if ledger.Some? {
        CandidatesSnoc(items, ledger.value, k);
      }
      if items[k].mutation.Some? {
        if ledger.None? {
          return None;
        }
        if items[k].blueprint !in ledger.value {
          implants := implants + [k];
        }
      }
      k := k + 1;
    }
    assert items[..k] == items;
    return Some(implants);
  }

  datatype Outcome =
    | NoImplants                    // nothing to trade
    | Faulted                       // the call throws before changing anything
    | Traded(item: Item, chips: int)

  /** The trader part; `redeemedImplants` is null (`None`) until `Register`. */
  class CyberneticTrader {
    var redeemedImplants: Option<set<string>>

    constructor ()
      ensures redeemedImplants == None
    {
      redeemedImplants := None;
    }

    /** `Register`: a fresh, empty ledger, whatever was recorded before. */
    method Register()
      modifies this
      ensures redeemedImplants == Some({})
    {
      redeemedImplants := Some({});
    }

    /** `AwardChips`: one `CreditWedge` stack of `chips`; when the factory
        yields nothing, setting its stack size throws before anything changes. */
    method AwardChips(body: Body, chips: nat, wedgeCreated: bool) returns (ok: bool)
      modifies body
      ensures ok == wedgeCreated
      ensures !ok ==> unchanged(body)
      ensures ok ==> body.wedges == old(body.wedges) + [Wedge("CreditWedge", chips)]
      ensures body.inventory == old(body.inventory) && body.bodyParts == old(body.bodyParts)
    {
      if !wedgeCreated {
        return false;
      }
      body.wedges := body.wedges + [Wedge("CreditWedge", chips)];
      return true;
    }

    /** `DoTrade`: with no candidate nothing changes; otherwise the first
        candidate is valued by its mutation's stat changes, one stack of that
        many wedges is handed over, its blueprint recorded and the item destroyed.
        A null ledger (before `Register`) or a failed wedge creation throws
        before any change. */
    method DoTrade(body: Body, wedgeCreated: bool) returns (outcome: Outcome)
      modifies this, body
      ensures body.bodyParts == old(body.bodyParts)
      ensures old(redeemedImplants).None? ==>
        unchanged(this) && unchanged(body) &&
        outcome == (if exists i :: 0 <= i < |old(body.inventory)| && old(body.inventory)[i].mutation.Some?
                    then Faulted else NoImplants)
      ensures old(redeemedImplants).Some? && Candidates(old(body.inventory), old(redeemedImplants).value) == [] ==>
        unchanged(this) && unchanged(body) && outcome == NoImplants
      ensures old(redeemedImplants).Some? && Candidates(old(body.inventory), old(redeemedImplants).value) != [] ==>
        var i := Candidates(old(body.inventory), old(redeemedImplants).value)[0];
        var item := old(body.inventory)[i];
        var chips := Chips(item.mutation.value);
        if wedgeCreated then
          && outcome == Traded(item, chips)
          && redeemedImplants == Some(old(redeemedImplants).value + {item.blueprint})
          && body.inventory == Seqs.RemoveAt(old(body.inventory), i)
          && body.wedges == old(body.wedges) + [Wedge("CreditWedge", chips)]
        else
          outcome == Faulted && unchanged(this) && unchanged(body)
    {
      var items := body.inventory;
      var found := FindImplants(items, redeemedImplants);
      if found.None? {
        return Faulted;
      }
      var implants := found.value;
      if |implants| == 0 {
        return NoImplants;
      }

      var chosen := ChooseImplant(implants);
      var index := chosen.value;
      var item := items[index];
      CandidatesSpec(items, redeemedImplants.value);
      var tier := DetermineTier(item.mutation.value);
      var chips := CappedChips(TierValues, tier);

      var ok := AwardChips(body, chips, wedgeCreated);
      if !ok {
        return Faulted;
      }
      redeemedImplants := Some(redeemedImplants.value + {item.blueprint});
      body.inventory := Seqs.RemoveAt(body.inventory, index);
      outcome := Traded(item, chips);
    }
  }

  /** A larger ledger never adds candidates: every trade only shrinks what later trades can offer. */
  lemma LedgerGrowthShrinksCandidates(inventory: seq<Item>, before: set<string>, after: set<string>)
    requires before <= after
    ensures forall i :: i in Candidates(inventory, after) ==> i in Candidates(inventory, before)
  {
    CandidatesSpec(inventory, before);
    CandidatesSpec(inventory, after);
    forall i | i in Candidates(inventory, after)
      ensures i in Candidates(inventory, before)
    {
      var j :| 0 <= j < |Candidates(inventory, after)| && Candidates(inventory, after)[j] == i;
    }
  }
}
