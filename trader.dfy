/** The fullest trader (`CyberneticTraderMod.CyberneticTrader`): a layered
    classifier, a three-rule valuation, and a trade that hands over wedges for
    the first valuable inventory item whose blueprint is not yet redeemed. */
module CyberneticTraderMod {
  import opened Host
  import opened Text
  import Seqs

  // ---------------------------------------------------------------- classifier

  const ImplantParts := ["Cybernetics", "CyberneticsBaseItem", "ModImplant", "ImplantBed", "CyberneticsPart"]
  const ImplantTags := ["Cybernetics", "Implant", "Bionic", "Prosthetic", "Augment", "Cyborg"]
  const ImplantCategories := ["Cybernetics", "Implants", "Bionics"]
  const Keywords := [
    "implant", "cybernetic", "bionic", "prosthetic", "augment", "cyborg",
    "neural", "cortex", "optic", "servo", "actuator", "interface",
    "enhancement", "modification", "upgrade", "stimulator"]
  const Patterns := [
    "night vision", "thermal vision", "telescopic", "penetrating",
    "ontological anchor", "ninefold boot", "equipment rack",
    "cybernetic heart", "cybernetic spine", "cybernetic brain",
    "dermal insulation", "artificial muscle", "mechanical wing",
    "bionic limb", "neural interface", "cranial", "spinal",
    "optical", "auditory", "sensory", "motor", "reflex"]
  const WornOnWords := ["cybernetic", "implant", "bionic", "prosthetic"]
  const RarityTags := ["Rare", "Unique", "Artifact"]

  predicate HasAnyPart(item: Item, names: seq<string>) {
    exists n :: n in names && HasPart(item, n)
  }

  predicate HasAnyTag(item: Item, tags: seq<string>) {
    exists t :: t in tags && HasTag(item, t)
  }

  /** The loop over `PartsList`: some part name, folded, contains a keyword. */
  function AnyPartMentions(parts: seq<string>, words: seq<string>): (r: bool)
    ensures r <==> exists j :: 0 <= j < |parts| && ContainsAny(ToLower(parts[j]), words)
  {
    if parts == [] then false
    else ContainsAny(ToLower(parts[0]), words) || AnyPartMentions(parts[1..], words)
  }

  /** Category is one of the implant categories (a null Category matches none). */
  predicate CategorySignal(item: Item) {
    item.category.Some? && item.category.value in ImplantCategories
  }

  /** The folded blueprint or display name contains one of `words`. */
  predicate NameMentions(item: Item, words: seq<string>) {
    ContainsAny(ToLower(item.blueprint), words) || ContainsAny(ToLower(item.displayName), words)
  }

  /** WornOn is set, non-empty, and names an implant slot once folded. */
  predicate WornOnSignal(item: Item) {
    item.wornOn.Some? && item.wornOn.value != "" && ContainsAny(ToLower(item.wornOn.value), WornOnWords)
  }

  predicate LicenseSignal(item: Item) {
    item.licensePoints.Some? && item.licensePoints.value > 0
  }

  /** `IsCyberneticImplant`: the checks in the order `CyberneticTrader.cs` makes them,
      the first that holds deciding. */
  predicate IsCyberneticImplant(item: Item) {
    if HasAnyPart(item, ImplantParts) then true
    else if HasAnyTag(item, ImplantTags) then true
    else if CategorySignal(item) then true
    else if NameMentions(item, Keywords) then true
    else if NameMentions(item, Patterns) then true
    else if AnyPartMentions(item.parts, Keywords) then true
    else if WornOnSignal(item) then true
    else if LicenseSignal(item) then true
    else false
  }

  /** The classifier's evidence read positionally: each signal says where a word occurs. */
  ghost predicate ImplantEvidence(item: Item) {
    var blueprint := ToLower(item.blueprint);
    var displayName := ToLower(item.displayName);
    || (exists n :: n in ImplantParts && n in item.parts)
    || (exists t :: t in ImplantTags && t in item.tags)
    || (item.category.Some? && item.category.value in ImplantCategories)
    || MentionsAny(blueprint, Keywords + Patterns)
    || MentionsAny(displayName, Keywords + Patterns)
    || (exists p :: p in item.parts && MentionsAny(ToLower(p), Keywords))
    || (item.wornOn.Some? && MentionsAny(ToLower(item.wornOn.value), WornOnWords))
    || (item.licensePoints.Some? && item.licensePoints.value > 0)
  }

  /** An item is classified as an implant exactly when at least one signal holds. */
  lemma ImplantIffEvidence(item: Item)
    ensures IsCyberneticImplant(item) <==> ImplantEvidence(item)
  {
    NameMentionsIff(item);
    PartNamesIff(item.parts);
    WornOnIff(item);
  }

  lemma NameMentionsIff(item: Item)
    ensures NameMentions(item, Keywords) || NameMentions(item, Patterns) <==>
      MentionsAny(ToLower(item.blueprint), Keywords + Patterns) ||
      MentionsAny(ToLower(item.displayName), Keywords + Patterns)
  {
    var blueprint := ToLower(item.blueprint);
    var displayName := ToLower(item.displayName);
    ContainsAnyIff(blueprint, Keywords);
    ContainsAnyIff(blueprint, Patterns);
    ContainsAnyIff(displayName, Keywords);
    ContainsAnyIff(displayName, Patterns);
    MentionsAnyAppend(blueprint, Keywords, Patterns);
    MentionsAnyAppend(displayName, Keywords, Patterns);
  }

  lemma PartNamesIff(parts: seq<string>)
    ensures AnyPartMentions(parts, Keywords) <==> exists p :: p in parts && MentionsAny(ToLower(p), Keywords)
  {
    forall p | p in parts {
      ContainsAnyIff(ToLower(p), Keywords);
    }
    if AnyPartMentions(parts, Keywords) {
      var j :| 0 <= j < |parts| && ContainsAny(ToLower(parts[j]), Keywords);
      assert parts[j] in parts;
    }
    if exists p :: p in parts && MentionsAny(ToLower(p), Keywords) {
      var p :| p in parts && MentionsAny(ToLower(p), Keywords);
      var j :| 0 <= j < |parts| && parts[j] == p;
      assert ContainsAny(ToLower(parts[j]), Keywords);
    }
  }

  lemma WornOnIff(item: Item)
    ensures WornOnSignal(item) <==> item.wornOn.Some? && MentionsAny(ToLower(item.wornOn.value), WornOnWords)
  {
    if item.wornOn.Some? {
      var w := ToLower(item.wornOn.value);
      ContainsAnyIff(w, WornOnWords);
    }
  }

  lemma MentionsAnyAppend(s: string, a: seq<string>, b: seq<string>)
    ensures MentionsAny(s, a + b) <==> MentionsAny(s, a) || MentionsAny(s, b)
  {
    if MentionsAny(s, a + b) {
      var w, i :| w in a + b && OccursAt(s, w, i);
      assert w in a || w in b;
    }
    if MentionsAny(s, a) {
      var w, i :| w in a && OccursAt(s, w, i);
      assert w in a + b;
    }
    if MentionsAny(s, b) {
      var w, i :| w in b && OccursAt(s, w, i);
      assert w in a + b;
    }
  }

  // ---------------------------------------------------------------- valuation

  predicate HasRarityTag(item: Item) {
    HasAnyTag(item, RarityTags)
  }

  // C#'s `int`: `complexity +=` is unchecked 32-bit addition, so it wraps.
  const Int32Min := -0x8000_0000
  const Int32Max := 0x7fff_ffff

  predicate IsInt32(x: int) {
    Int32Min <= x <= Int32Max
  }

  /** Unchecked 32-bit arithmetic: `x` reduced into the `int` range, unchanged when it already fits. */
  function Wrap32(x: int): (r: int)
    ensures IsInt32(r)
    ensures IsInt32(x) ==> r == x
    ensures x > Int32Max && x - 0x1_0000_0000 <= Int32Max ==> r == x - 0x1_0000_0000
  {
    (x - Int32Min) % 0x1_0000_0000 + Int32Min
  }

  /** The Tier property, counted only when present. */
  function TierSignal(item: Item): int {
    if item.tier.Some? then item.tier.value else 0
  }

  /** +2 above 1000, +1 from 501 to 1000, nothing otherwise or when absent. */
  function ValueSignal(item: Item): (r: int)
    ensures 0 <= r <= 2
  {
    if item.value.Some? then
      if item.value.value > 1000 then 2 else if item.value.value > 500 then 1 else 0
    else 0
  }

  function RaritySignal(item: Item): (r: int)
    ensures r == 0 || r == 2
  {
    if HasRarityTag(item) then 2 else 0
  }

  const HighQualityWords := ["high", "advanced", "superior", "master", "legendary"]
  const MidQualityWords := ["med", "standard", "improved"]

  /** The blueprint's quality words: a high word wins over a middling one. */
  function QualitySignal(item: Item): (r: int)
    ensures 0 <= r <= 2
  {
    var blueprint := ToLower(item.blueprint);
    if ContainsAny(blueprint, HighQualityWords) then 2
    else if ContainsAny(blueprint, MidQualityWords) then 1
    else 0
  }

  /** The four signals added up in unbounded arithmetic. */
  function RawComplexity(item: Item): int {
    TierSignal(item) + ValueSignal(item) + RaritySignal(item) + QualitySignal(item)
  }

  /** The score fits the 32-bit `int` at every step of the running sum. */
  predicate NoWrap(item: Item) {
    IsInt32(TierSignal(item)) && RawComplexity(item) <= Int32Max
  }

  /** The complexity score of `CalculateCyberneticValue`: the running `complexity +=`
      over the four signals, each step in 32-bit `int`. It is the plain sum exactly
      as long as that sum fits. */
  function Complexity(item: Item): (r: int)
    ensures IsInt32(r)
    ensures NoWrap(item) ==> r == RawComplexity(item)
  {
    var afterTier := Wrap32(0 + TierSignal(item));
    var afterValue := Wrap32(afterTier + ValueSignal(item));
    var afterRarity := Wrap32(afterValue + RaritySignal(item));
    Wrap32(afterRarity + QualitySignal(item))
  }

  /** Score to wedges: 6 and up gives 3, 3 to 5 gives 2, anything lower gives 1. */
  function WedgesForComplexity(score: int): (r: int)
    ensures 1 <= r <= 3
    ensures r == 3 <==> score >= 6
    ensures r == 1 <==> score < 3
  {
    if score >= 6 then 3 else if score >= 3 then 2 else 1
  }

  /** A higher score never earns fewer wedges. */
  lemma WedgesForComplexityMonotone(a: int, b: int)
    requires a <= b
    ensures WedgesForComplexity(a) <= WedgesForComplexity(b)
  {
  }

  /** `CalculateCyberneticValue`: always between 1 and 3 wedges. */
  function CalculateCyberneticValue(item: Item): (r: int)
    ensures 1 <= r <= 3
  {
    WedgesForComplexity(Complexity(item))
  }

  /** Apart from the Tier property, the signals add up to at most 6; without a
      Tier the score never wraps. */
  lemma ComplexityBeyondTier(item: Item)
    ensures item.tier.None? ==> NoWrap(item) && 0 <= Complexity(item) <= 6
    ensures NoWrap(item) ==> 0 <= Complexity(item) - TierSignal(item) <= 6
  {
  }

  /** Raising the Tier property never lowers the cybernetic value, as long as the
      raised score still fits the 32-bit `int`. */
  lemma CyberneticValueMonotoneInTier(item: Item, t: int)
    requires item.tier.Some? && Int32Min <= item.tier.value <= t
    requires NoWrap(item.(tier := Some(t)))
    ensures CalculateCyberneticValue(item) <= CalculateCyberneticValue(item.(tier := Some(t)))
  {
    var raised := item.(tier := Some(t));
    assert QualitySignal(raised) == QualitySignal(item);
    WedgesForComplexityMonotone(Complexity(item), Complexity(raised));
  }

  /** Adding a rarity tag never lowers the cybernetic value, as long as the
      rarer score still fits the 32-bit `int`. */
  lemma CyberneticValueMonotoneInRarity(item: Item, tag: string)
    requires tag in RarityTags
    requires NoWrap(item.(tags := item.tags + {tag}))
    ensures CalculateCyberneticValue(item) <= CalculateCyberneticValue(item.(tags := item.tags + {tag}))
  {
    var rarer := item.(tags := item.tags + {tag});
    assert QualitySignal(rarer) == QualitySignal(item);
    WedgesForComplexityMonotone(Complexity(item), Complexity(rarer));
  }

  /** Where the running sum wraps, monotonicity fails: with Value 1500 and no
      other signal, Tier 5 scores 7 and earns 3 wedges, while Tier 2147483646
      wraps to -2147483648 and earns 1. */
  lemma TierWrapBreaksMonotonicity(item: Item)
    requires item.value == Some(1500) && !HasRarityTag(item) && QualitySignal(item) == 0
    ensures CalculateCyberneticValue(item.(tier := Some(5))) == 3
    ensures CalculateCyberneticValue(item.(tier := Some(0x7fff_fffe))) == 1
  {
    var low := item.(tier := Some(5));
    var high := item.(tier := Some(0x7fff_fffe));
    assert QualitySignal(low) == 0 && QualitySignal(high) == 0;
    assert !HasRarityTag(low) && !HasRarityTag(high);
    assert Complexity(high) == Int32Min;
  }

  /** Adding a rarity tag at Tier 2147483646 wraps the score and drops the value from 3 to 1. */
  lemma RarityWrapBreaksMonotonicity(item: Item)
    requires item.tier == Some(0x7fff_fffe) && item.value.None?
    requires !HasRarityTag(item) && QualitySignal(item) == 0
    ensures CalculateCyberneticValue(item) == 3
    ensures CalculateCyberneticValue(item.(tags := item.tags + {"Rare"})) == 1
  {
    var rarer := item.(tags := item.tags + {"Rare"});
    assert QualitySignal(rarer) == 0;
    assert HasTag(rarer, RarityTags[0]);
    assert Complexity(rarer) == Int32Min;
  }

  const EquipmentParts := ["Armor", "MeleeWeapon", "RangedWeapon", "Shield"]

  /** `IsValuableEquipment`: an equipment part, and Tier (default 1) of 3 or more or a Rare/Unique tag. */
  predicate IsValuableEquipment(item: Item) {
    HasAnyPart(item, EquipmentParts) &&
    (TierOr(item, 1) >= 3 || HasTag(item, "Rare") || HasTag(item, "Unique"))
  }

  /** `CalculateEquipmentValue`: 2 from Tier 6, 1 from Tier 3, raised to 1 by a Rare/Unique tag. */
  function CalculateEquipmentValue(item: Item): (r: int)
    ensures 0 <= r <= 2
  {
    var byTier :=
      if item.tier.Some? then
        if item.tier.value >= 6 then 2 else if item.tier.value >= 3 then 1 else 0
      else 0;
    if HasTag(item, "Rare") || HasTag(item, "Unique") then
      if byTier > 1 then byTier else 1
    else byTier
  }

  /** Valuable equipment is worth 1 or 2 wedges, 2 exactly when its Tier is 6 or more. */
  lemma EquipmentValueOfValuable(item: Item)
    requires IsValuableEquipment(item)
    ensures 1 <= CalculateEquipmentValue(item) <= 2
    ensures CalculateEquipmentValue(item) == 2 <==> item.tier.Some? && item.tier.value >= 6
  {
  }

  /** `CalculateItemValue`: 0 to 3 wedges, and 0 exactly when no rule applies. */
  function CalculateItemValue(item: Item): (r: int)
    ensures 0 <= r <= 3
    ensures r == 0 <==> !IsCyberneticImplant(item) && !IsValuableEquipment(item) && !HasRarityTag(item)
  {
    if IsCyberneticImplant(item) then CalculateCyberneticValue(item)
    else if IsValuableEquipment(item) then (EquipmentValueOfValuable(item); CalculateEquipmentValue(item))
    else if HasRarityTag(item) then 1
    else 0
  }

  /** The rules take precedence in order: cybernetic, then equipment, then rarity. */
  lemma ValuationPrecedence(item: Item)
    ensures IsCyberneticImplant(item) ==> CalculateItemValue(item) == CalculateCyberneticValue(item)
    ensures !IsCyberneticImplant(item) && IsValuableEquipment(item) ==>
      CalculateItemValue(item) == CalculateEquipmentValue(item)
    ensures !IsCyberneticImplant(item) && !IsValuableEquipment(item) && HasRarityTag(item) ==>
      CalculateItemValue(item) == 1
  {
  }

  /** A cybernetic item with Tier 7, a Rare tag and "legendary" in its blueprint
      scores 7 + 2 + 2 = 11 and earns the top value. */
  lemma ScenarioLegendaryImplant(item: Item)
    requires IsCyberneticImplant(item)
    requires item.tier == Some(7) && item.value.None? && HasTag(item, "Rare")
    requires Contains(ToLower(item.blueprint), "legendary")
    ensures Complexity(item) == 11 && CalculateItemValue(item) == 3
  {
    assert Contains(ToLower(item.blueprint), HighQualityWords[4]);
  }

  /** A cybernetic item whose only signal is Value 1500 scores 2 and earns the bottom value. */
  lemma ScenarioValueOnly(item: Item)
    requires IsCyberneticImplant(item)
    requires item.tier.None? && item.value == Some(1500) && !HasRarityTag(item)
    requires !ContainsAny(ToLower(item.blueprint), HighQualityWords + MidQualityWords)
    ensures Complexity(item) == 2 && CalculateItemValue(item) == 1
  {
    var blueprint := ToLower(item.blueprint);
    var words := HighQualityWords + MidQualityWords;
    forall j | 0 <= j < |HighQualityWords|
      ensures !Contains(blueprint, HighQualityWords[j])
    {
      assert words[j] == HighQualityWords[j];
    }
    forall j | 0 <= j < |MidQualityWords|
      ensures !Contains(blueprint, MidQualityWords[j])
    {
      assert words[|HighQualityWords| + j] == MidQualityWords[j];
    }
  }

  /** Armor without a Tier property or tags is never valuable equipment, so it is
      worth something exactly when the classifier takes it for an implant. */
  lemma ScenarioPlainArmor(item: Item)
    requires item.parts == ["Armor"] && item.tags == {} && item.tier.None?
    ensures !IsValuableEquipment(item)
    ensures CalculateItemValue(item) == 0 <==> !IsCyberneticImplant(item)
  {
  }

  // ---------------------------------------------------------------- trading

  /** An inventory item the trader would take: some value and an unredeemed blueprint. */
  predicate IsTradeable(item: Item, redeemed: set<string>) {
    CalculateItemValue(item) > 0 && item.blueprint !in redeemed
  }

  function TradeMask(inventory: seq<Item>, redeemed: set<string>): seq<bool> {
    seq(|inventory|, i requires 0 <= i < |inventory| => IsTradeable(inventory[i], redeemed))
  }

  lemma TradeMaskAt(inventory: seq<Item>, redeemed: set<string>)
    ensures |TradeMask(inventory, redeemed)| == |inventory|
    ensures forall i :: 0 <= i < |inventory| ==> TradeMask(inventory, redeemed)[i] == IsTradeable(inventory[i], redeemed)
  {
  }

  /** `tradeableItems`: the indices of the tradeable items, in inventory order. */
  function Candidates(inventory: seq<Item>, redeemed: set<string>): seq<nat> {
    Seqs.Positions(TradeMask(inventory, redeemed))
  }

  /** Candidates are exactly the tradeable items, ascending; with none the
      trade has nothing to act on, otherwise it acts on the earliest one. */
  lemma CandidatesSpec(inventory: seq<Item>, redeemed: set<string>)
    ensures forall j :: 0 <= j < |Candidates(inventory, redeemed)| ==>
      Candidates(inventory, redeemed)[j] < |inventory| &&
      IsTradeable(inventory[Candidates(inventory, redeemed)[j]], redeemed)
    ensures forall i :: 0 <= i < |inventory| && IsTradeable(inventory[i], redeemed) ==>
      i in Candidates(inventory, redeemed)
    ensures Candidates(inventory, redeemed) == [] <==>
      forall i :: 0 <= i < |inventory| ==> !IsTradeable(inventory[i], redeemed)
    ensures Candidates(inventory, redeemed) != [] ==>
      forall i :: 0 <= i < Candidates(inventory, redeemed)[0] ==> !IsTradeable(inventory[i], redeemed)
  {
    TradeMaskAt(inventory, redeemed);
    Seqs.PositionsFirst(TradeMask(inventory, redeemed));
  }

  /** Scanning one more inventory item adds it to the candidates exactly when it is tradeable. */
  lemma CandidatesSnoc(inventory: seq<Item>, redeemed: set<string>, k: nat)
    requires k < |inventory|
    ensures Candidates(inventory[..k + 1], redeemed) ==
      Candidates(inventory[..k], redeemed) + (if IsTradeable(inventory[k], redeemed) then [k] else [])
  {
    var b := IsTradeable(inventory[k], redeemed);
    assert TradeMask(inventory[..k + 1], redeemed) == TradeMask(inventory[..k], redeemed) + [b];
    Seqs.PositionsSnoc(TradeMask(inventory[..k], redeemed), b);
  }

  /** A redeemed blueprint is never among the candidates, whatever the inventory. */
  lemma RedeemedNeverCandidate(inventory: seq<Item>, redeemed: set<string>, blueprint: string)
    requires blueprint in redeemed
    ensures forall j :: 0 <= j < |Candidates(inventory, redeemed)| ==>
      inventory[Candidates(inventory, redeemed)[j]].blueprint != blueprint
  {
    CandidatesSpec(inventory, redeemed);
  }

  /** A larger ledger only removes candidates. */
  lemma LedgerGrowthShrinksCandidates(inventory: seq<Item>, before: set<string>, after: set<string>)
    requires before <= after
    ensures forall i :: i in Candidates(inventory, after) ==> i in Candidates(inventory, before)
  {
    CandidatesSpec(inventory, before);
    CandidatesSpec(inventory, after);
    forall i | i in Candidates(inventory, after)
      ensures i in Candidates(inventory, before)
    {
      var j :| 0 <= j < |Candidates(inventory, after)| && Candidates(inventory, after)[j] == i;
    }
  }

  /** The trader part and its ledger of redeemed blueprints. */
  class CyberneticTrader {
    var redeemedImplants: set<string>

    constructor ()
      ensures redeemedImplants == {}
    {
      redeemedImplants := {};
    }

    /** `AwardChips`: one creation attempt per wedge; a failed attempt hands over nothing. */
    method AwardChips(body: Body, chips: nat, created: nat -> bool)
      modifies body
      ensures body.wedges == old(body.wedges) + Singles(Delivered(created, chips))
      ensures body.inventory == old(body.inventory) && body.bodyParts == old(body.bodyParts)
    {
      var i := 0;
      while i < chips
        invariant 0 <= i <= chips
        invariant body.wedges == old(body.wedges) + Singles(Delivered(created, i))
        invariant body.inventory == old(body.inventory) && body.bodyParts == old(body.bodyParts)
      {
        if created(i) {
          body.wedges := body.wedges + [SingleWedge];
        }
        i := i + 1;
      }
    }

    /** `DoTrade`: with no candidate nothing changes; otherwise the first
        candidate's value is awarded, its blueprint recorded and the item
        destroyed, in that order and whatever the factory delivered. */
    method DoTrade(body: Body, created: nat -> bool)
      modifies this, body
      ensures old(redeemedImplants) <= redeemedImplants
      ensures body.bodyParts == old(body.bodyParts)
      ensures Candidates(old(body.inventory), old(redeemedImplants)) == [] ==>
        redeemedImplants == old(redeemedImplants) &&
        body.inventory == old(body.inventory) && body.wedges == old(body.wedges)
      ensures Candidates(old(body.inventory), old(redeemedImplants)) != [] ==>
        var i := Candidates(old(body.inventory), old(redeemedImplants))[0];
        var item := old(body.inventory)[i];
        && redeemedImplants == old(redeemedImplants) + {item.blueprint}
        && body.inventory == Seqs.RemoveAt(old(body.inventory), i)
        && body.wedges == old(body.wedges) + Singles(Delivered(created, CalculateItemValue(item)))
    {
      var allItems := body.inventory;
      var tradeableItems: seq<nat> := [];
      var k := 0;
      while k < |allItems|
        invariant 0 <= k <= |allItems|
        invariant tradeableItems == Candidates(allItems[..k], redeemedImplants)
        invariant unchanged(this) && unchanged(body)
      {
        CandidatesSnoc(allItems, redeemedImplants, k);
        if IsTradeable(allItems[k], redeemedImplants) {
          tradeableItems := tradeableItems + [k];
        }
        k := k + 1;
      }
      assert allItems[..k] == allItems;
      if |tradeableItems| == 0 {
        return;
      }
      var selected := tradeableItems[0];
      var selectedItem := allItems[selected];
      var tradeValue := CalculateItemValue(selectedItem);
      AwardChips(body, tradeValue, created);
      redeemedImplants := redeemedImplants + {selectedItem.blueprint};
      body.inventory := Seqs.RemoveAt(body.inventory, selected);
    }
  }
}
