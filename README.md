# Implant wedge trader — a Dafny model

This project models the trade-in logic of the ImplantWedgeTrader mod for Caves of Qud. A trader NPC
takes an item from the player, values it, and pays for it in credit wedges. The repository holds
three independent versions of this logic. Each is modelled as its own module, and they are never merged:

- `CyberneticTraderMod` (`ImplantWedgeTrader/Objects/Parts/CyberneticTrader.cs`) is the fullest version.
  - A layered classifier decides whether an item is a cybernetic implant.
  - A three-rule valuation gives the item its worth in wedges: cybernetic score, then valuable equipment, then a rarity fallback.
  - `DoTrade` hands over wedges for the first valuable inventory item whose blueprint is not yet in the `RedeemedImplants` ledger. It then records the blueprint and destroys the item.
- `ConversationTrade` (`ZoneBuilders/CyberneticTradeHandler.cs`) is the conversation-driven handler.
  - It values items from a static name table, falling back to tags.
  - It gathers the equipped and carried implants and offers a menu with a trailing "Cancel".
  - On a real choice it removes the implant and grants its value one wedge at a time. It keeps no ledger.
- `GrantCyberneticWedge` (`ImplantWedgeTrader/Objects/Parts/CyberneticTraderPart.cs`) is the early version.
  - A mutation's stat-change count is mapped through thresholds to a tier.
  - The tier is looked up in `TierValues` and the result capped at 3.
  - The whole amount is paid as one wedge stack.
  - It keeps a blueprint ledger that `Register` resets.

Three shared modules support them:

- `Text` provides ASCII case folding and substring search (`ToLower` and `Contains`), with the search tied to an explicit "occurs at position i" reading.
- `Seqs` provides the order-preserving filter (`Where` / `FindAll`) as a list of positions, and removal of one element.
- `Host` is the narrow view of the game the traders use:
  - an item descriptor (blueprint, display name, tags, part names, and the optional Tier, Value, LicensePoints, Category and WornOn properties);
  - the stat-change count of an item's mutation part;
  - the wedge factory, as an oracle that says which creation attempts succeed;
  - the player's `Body`, with equipped body parts, inventory and received wedges.

Items are values. A candidate list holds the index, or the body-part/inventory location, of each item, and that stands in for an object reference. "Destroy" and "remove from context" remove the item at that position.

The fullest version's trade is not a transaction.
- Its `AwardChips` skips wedges the factory fails to create and swallows any exception.
- The ledger update and the destruction of the item happen whatever was delivered.
- `CyberneticTraderMod.CyberneticTrader.DoTrade` states exactly that, and does not idealise the trade as all-or-nothing.

## Model

| member | source | states |
|---|---|---|
| Text.LowerChar | ImplantWedgeTrader/Objects/Parts/CyberneticTrader.cs:186-187 | a folded character is never an upper-case letter; A–Z become their lower-case partners and every other character is kept |
| Text.ToLower | ImplantWedgeTrader/Objects/Parts/CyberneticTrader.cs:186-187 | folding keeps the length, lowers exactly the letters A–Z and leaves every other character, and its result has no upper-case letter left |
| Text.ToLowerIdempotent | ImplantWedgeTrader/Objects/Parts/CyberneticTrader.cs:186-187 | folding an already folded string changes nothing |
| Text.Contains | ImplantWedgeTrader/Objects/Parts/CyberneticTrader.cs:212 | ordinal `string.Contains`: the text starts with the word here or somewhere further on; its meaning is given by `Text.ContainsIff` |
| Text.ContainsIff | ImplantWedgeTrader/Objects/Parts/CyberneticTrader.cs:212 | `Contains(s, sub)` holds exactly when `sub` occurs in `s` at some position (both directions) |
| Text.ContainsAny | ImplantWedgeTrader/Objects/Parts/CyberneticTrader.cs:212 | `words.Any(w => s.Contains(w))`: true exactly when the text contains one of the listed words |
| Text.ContainsAnyIff | ImplantWedgeTrader/Objects/Parts/CyberneticTrader.cs:212 | a text contains one of a word list exactly when one of the words occurs in it at some position |
| Seqs.Positions | ImplantWedgeTrader/Objects/Parts/CyberneticTrader.cs:70-72 | the filter keeps exactly the selected indices, each in range, in strictly ascending order |
| Seqs.PositionsFirst | ImplantWedgeTrader/Objects/Parts/CyberneticTrader.cs:74-80 | the filter is empty exactly when nothing is selected, and its first entry is the earliest selected index |
| Seqs.RemoveAt | ImplantWedgeTrader/Objects/Parts/CyberneticTrader.cs:86 | removing the destroyed item shortens the inventory by one and keeps the other items in order |
| Seqs.RemoveAtMultiset | ImplantWedgeTrader/Objects/Parts/CyberneticTrader.cs:86 | removal takes out exactly one occurrence of that item and nothing else |
| Host.Singles | ImplantWedgeTrader/Objects/Parts/CyberneticTrader.cs:262-266 | n delivered wedges are n single `CreditWedge1` objects |
| Host.Delivered | ImplantWedgeTrader/Objects/Parts/CyberneticTrader.cs:260-267 | the wedges delivered never exceed those requested; all arrive when the factory never fails, none when it always fails |
| CyberneticTraderMod.IsCyberneticImplant | ImplantWedgeTrader/Objects/Parts/CyberneticTrader.cs:184-254 | the eight checks in the order of the C# method, the first that holds answering true; `CyberneticTraderMod.ImplantIffEvidence` states what it accepts |
| CyberneticTraderMod.AnyPartMentions | ImplantWedgeTrader/Objects/Parts/CyberneticTrader.cs:231-237 | the part-name loop succeeds exactly when some part's folded name contains a keyword |
| CyberneticTraderMod.ImplantIffEvidence | ImplantWedgeTrader/Objects/Parts/CyberneticTrader.cs:184-254 | the ordered short-circuit classifier is true exactly when at least one signal holds: an implant part or tag, an implant category, a keyword or pattern occurring in the folded blueprint or display name, a keyword in a folded part name, an implant word in a folded WornOn, or positive LicensePoints |
| CyberneticTraderMod.NameMentionsIff | ImplantWedgeTrader/Objects/Parts/CyberneticTrader.cs:205-229 | the keyword and pattern checks together succeed exactly when a keyword or pattern occurs in the folded blueprint or display name |
| CyberneticTraderMod.PartNamesIff | ImplantWedgeTrader/Objects/Parts/CyberneticTrader.cs:231-237 | the part-name loop succeeds exactly when some part name, folded, has a keyword at some position |
| CyberneticTraderMod.WornOnIff | ImplantWedgeTrader/Objects/Parts/CyberneticTrader.cs:239-247 | the WornOn check succeeds exactly when WornOn is set and, folded, has an implant word at some position; the emptiness guard never changes the answer |
| CyberneticTraderMod.ValueSignal | ImplantWedgeTrader/Objects/Parts/CyberneticTrader.cs:123-129 | the Value property adds 0, 1 or 2 to the score |
| CyberneticTraderMod.RaritySignal | ImplantWedgeTrader/Objects/Parts/CyberneticTrader.cs:131-133 | a rarity tag adds 2 to the score, otherwise nothing |
| CyberneticTraderMod.QualitySignal | ImplantWedgeTrader/Objects/Parts/CyberneticTrader.cs:135-143 | the blueprint's quality words add 0, 1 or 2 to the score |
| CyberneticTraderMod.Wrap32 | ImplantWedgeTrader/Objects/Parts/CyberneticTrader.cs:115-143 | unchecked C# `int` arithmetic: the result is always a 32-bit int, equal to the exact value when that fits and 2^32 less just past the top |
| CyberneticTraderMod.Complexity | ImplantWedgeTrader/Objects/Parts/CyberneticTrader.cs:115-143 | the running `complexity +=` sum in 32-bit `int`: always a 32-bit int, and exactly the sum of the Tier, Value, rarity and quality signals whenever that sum does not wrap |
| CyberneticTraderMod.WedgesForComplexity | ImplantWedgeTrader/Objects/Parts/CyberneticTrader.cs:145-148 | the score maps to 1 to 3 wedges: 3 exactly when the score is at least 6, 1 exactly when it is below 3 |
| CyberneticTraderMod.WedgesForComplexityMonotone | ImplantWedgeTrader/Objects/Parts/CyberneticTrader.cs:145-148 | a higher score never earns fewer wedges |
| CyberneticTraderMod.CalculateCyberneticValue | ImplantWedgeTrader/Objects/Parts/CyberneticTrader.cs:113-149 | the cybernetic value is always between 1 and 3 wedges |
| CyberneticTraderMod.ComplexityBeyondTier | ImplantWedgeTrader/Objects/Parts/CyberneticTrader.cs:115-143 | without a Tier the score never wraps and lies in 0..6; whenever it does not wrap, the non-Tier signals add 0 to 6 |
| CyberneticTraderMod.CyberneticValueMonotoneInTier | ImplantWedgeTrader/Objects/Parts/CyberneticTrader.cs:117-148 | raising an item's Tier never lowers its cybernetic value while the raised score fits a 32-bit `int` |
| CyberneticTraderMod.CyberneticValueMonotoneInRarity | ImplantWedgeTrader/Objects/Parts/CyberneticTrader.cs:131-148 | adding a Rare, Unique or Artifact tag never lowers the cybernetic value while the rarer score fits a 32-bit `int` |
| CyberneticTraderMod.TierWrapBreaksMonotonicity | ImplantWedgeTrader/Objects/Parts/CyberneticTrader.cs:117-148 | past the 32-bit range the C# sum wraps: with Value 1500 and no other signal, Tier 5 earns 3 wedges but Tier 2147483646 earns 1 |
| CyberneticTraderMod.RarityWrapBreaksMonotonicity | ImplantWedgeTrader/Objects/Parts/CyberneticTrader.cs:117-148 | at Tier 2147483646 with no other signal an item earns 3 wedges, and adding a Rare tag wraps the score so it earns 1 |
| CyberneticTraderMod.IsValuableEquipment | ImplantWedgeTrader/Objects/Parts/CyberneticTrader.cs:170-182 | an Armor, MeleeWeapon, RangedWeapon or Shield part, and Tier (1 when absent) of at least 3 or a Rare/Unique tag; `CyberneticTraderMod.EquipmentValueOfValuable` states what such items are worth |
| CyberneticTraderMod.CalculateEquipmentValue | ImplantWedgeTrader/Objects/Parts/CyberneticTrader.cs:151-168 | the equipment value is between 0 and 2 wedges |
| CyberneticTraderMod.EquipmentValueOfValuable | ImplantWedgeTrader/Objects/Parts/CyberneticTrader.cs:151-182 | valuable equipment (an equipment part, and Tier, defaulting to 1, of 3 or more or a Rare/Unique tag) is worth 1 or 2 wedges, and 2 exactly when its Tier is 6 or more |
| CyberneticTraderMod.CalculateItemValue | ImplantWedgeTrader/Objects/Parts/CyberneticTrader.cs:90-111 | an item is worth 0 to 3 wedges, and 0 exactly when it is neither cybernetic nor valuable equipment and has no Rare/Unique/Artifact tag |
| CyberneticTraderMod.ValuationPrecedence | ImplantWedgeTrader/Objects/Parts/CyberneticTrader.cs:93-108 | the cybernetic rule wins over the equipment rule, which wins over the rarity fallback of 1 |
| CyberneticTraderMod.ScenarioLegendaryImplant | ImplantWedgeTrader/Objects/Parts/CyberneticTrader.cs:113-148 | a cybernetic item with Tier 7, a Rare tag and "legendary" in its blueprint scores 11 and is worth 3 |
| CyberneticTraderMod.ScenarioValueOnly | ImplantWedgeTrader/Objects/Parts/CyberneticTrader.cs:113-148 | a cybernetic item whose only signal is Value 1500 scores 2 and is worth 1 |
| CyberneticTraderMod.ScenarioPlainArmor | ImplantWedgeTrader/Objects/Parts/CyberneticTrader.cs:170-182 | armor with no Tier and no tags is never valuable equipment, and is worth nothing exactly when it is not classified as an implant |
| CyberneticTraderMod.Candidates | ImplantWedgeTrader/Objects/Parts/CyberneticTrader.cs:69-71 | `tradeableItems` as positions in the inventory; `CyberneticTraderMod.CandidatesSpec` states which items and in what order |
| CyberneticTraderMod.CandidatesSpec | ImplantWedgeTrader/Objects/Parts/CyberneticTrader.cs:70-80 | the trade candidates are exactly the items with value above 0 and an unredeemed blueprint; there are none exactly when no item qualifies, and the first is the earliest qualifying item |
| CyberneticTraderMod.CandidatesSnoc | ImplantWedgeTrader/Objects/Parts/CyberneticTrader.cs:70-72 | scanning one more item adds it to the candidates exactly when it is tradeable |
| CyberneticTraderMod.RedeemedNeverCandidate | ImplantWedgeTrader/Objects/Parts/CyberneticTrader.cs:70-72 | no item whose blueprint is in the ledger is ever a candidate |
| CyberneticTraderMod.LedgerGrowthShrinksCandidates | ImplantWedgeTrader/Objects/Parts/CyberneticTrader.cs:69-72 | a larger ledger never adds candidates |
| CyberneticTraderMod.CyberneticTrader.constructor | ImplantWedgeTrader/Objects/Parts/CyberneticTrader.cs:16 | a new trader starts with an empty ledger |
| CyberneticTraderMod.CyberneticTrader.AwardChips | ImplantWedgeTrader/Objects/Parts/CyberneticTrader.cs:256-273 | one creation attempt per requested wedge; the player receives exactly the wedges the factory delivered, and nothing else changes |
| CyberneticTraderMod.CyberneticTrader.DoTrade | ImplantWedgeTrader/Objects/Parts/CyberneticTrader.cs:61-88 | the ledger only grows. With no candidate nothing changes. Otherwise, for the earliest candidate and whatever the factory delivers: the wedges delivered for its value are added, its blueprint alone joins the ledger, and it alone leaves the inventory |
| ConversationTrade.TableValuesInRange | ZoneBuilders/CyberneticTradeHandler.cs:14-49 | every entry of the implant value table is between 1 and 3 |
| ConversationTrade.IsCyberneticImplant | ZoneBuilders/CyberneticTradeHandler.cs:156-174 | false for null; otherwise an implant tag, a table name or an implant part, checked in that order |
| ConversationTrade.TableNamesAreImplants | ZoneBuilders/CyberneticTradeHandler.cs:156-174 | every item whose display name is in the table is classified as an implant, whatever its tags and parts |
| ConversationTrade.GetImplantValue | ZoneBuilders/CyberneticTradeHandler.cs:176-191 | null is worth 0 and anything else 1 to 3. A table name is worth its table value; otherwise the value is 3 exactly for Rare or Complex, else 2 for Advanced, else 1 |
| ConversationTrade.TableOverridesTags | ZoneBuilders/CyberneticTradeHandler.cs:176-191 | for a table name, the tags never change the value |
| ConversationTrade.WornImplants | ZoneBuilders/CyberneticTradeHandler.cs:64-74 | the body-part loop: the locations of the equipped implants; `ConversationTrade.WornImplantsSpec` states which and in what order |
| ConversationTrade.CarriedImplants | ZoneBuilders/CyberneticTradeHandler.cs:76-86 | the inventory loop: the locations of the carried implants; `ConversationTrade.CarriedImplantsSpec` states which and in what order |
| ConversationTrade.Candidates | ZoneBuilders/CyberneticTradeHandler.cs:62-86 | the `implants` list: equipped implants, then carried ones |
| ConversationTrade.WornImplantsSpec | ZoneBuilders/CyberneticTradeHandler.cs:64-74 | the equipped candidates are exactly the occupied body parts holding an implant, in body-part order |
| ConversationTrade.CarriedImplantsSpec | ZoneBuilders/CyberneticTradeHandler.cs:76-86 | the carried candidates are exactly the inventory implants, in inventory order |
| ConversationTrade.CandidatesSpec | ZoneBuilders/CyberneticTradeHandler.cs:62-86 | every candidate names an implant at a valid place, and every equipped or carried implant is a candidate |
| ConversationTrade.CandidatesWornFirst | ZoneBuilders/CyberneticTradeHandler.cs:62-86 | all equipped candidates come before all carried ones |
| ConversationTrade.CandidatesValidLemma | ZoneBuilders/CyberneticTradeHandler.cs:62-86 | every gathered candidate points at an item that is there |
| ConversationTrade.NatToString | ZoneBuilders/CyberneticTradeHandler.cs:102 | the decimal text of the value: at least one character, all of them digits, and the single digit for values below ten (every implant value is 1 to 3) |
| ConversationTrade.Label | ZoneBuilders/CyberneticTradeHandler.cs:102 | one offer: the display name, the value, and "wedge" or "wedges"; `ConversationTrade.LabelPlural` states the plural rule |
| ConversationTrade.LabelPlural | ZoneBuilders/CyberneticTradeHandler.cs:102 | a label says "wedges" exactly when the value is more than 1 |
| ConversationTrade.Options | ZoneBuilders/CyberneticTradeHandler.cs:95-107 | the menu has one label per candidate, in candidate order, naming its display name and value, and then a final "Cancel" |
| ConversationTrade.OptionsPlural | ZoneBuilders/CyberneticTradeHandler.cs:98-104 | each offer's label speaks of wedges in the plural exactly when that implant is worth more than one |
| ConversationTrade.GatherImplants | ZoneBuilders/CyberneticTradeHandler.cs:62-86 | the two gathering loops build exactly the candidate list |
| ConversationTrade.BuildOptions | ZoneBuilders/CyberneticTradeHandler.cs:95-107 | the option-building loop builds exactly the menu |
| ConversationTrade.RemoveImplant | ZoneBuilders/CyberneticTradeHandler.cs:131-138 | an equipped implant leaves its body part empty, a carried one leaves the inventory, and nothing else changes |
| ConversationTrade.AwardWedges | ZoneBuilders/CyberneticTradeHandler.cs:140-148 | one creation attempt per wedge owed; the player receives exactly the wedges delivered |
| ConversationTrade.HandleEnterElement | ZoneBuilders/CyberneticTradeHandler.cs:56-154 | with no candidates, on -1 or "Cancel", or on an index the list does not have, nothing changes. A real choice c removes candidate c from where it is and pays its value, less factory failures |
| GrantCyberneticWedge.DetermineTier | ImplantWedgeTrader/Objects/Parts/CyberneticTraderPart.cs:86-93 | Low exactly below 2 stat changes, High exactly from 4, Mid otherwise |
| GrantCyberneticWedge.DetermineTierMonotone | ImplantWedgeTrader/Objects/Parts/CyberneticTraderPart.cs:86-93 | more stat changes never give a lower tier |
| GrantCyberneticWedge.CappedChips | ImplantWedgeTrader/Objects/Parts/CyberneticTraderPart.cs:68 | for any table, the award never exceeds 3 and is the table value whenever that is at most 3 |
| GrantCyberneticWedge.Chips | ImplantWedgeTrader/Objects/Parts/CyberneticTraderPart.cs:65-68 | with the shipped table the award is 1 to 3, one more than the tier's rank, and exactly the table value, so the cap of 3 never bites |
| GrantCyberneticWedge.ChipsMonotone | ImplantWedgeTrader/Objects/Parts/CyberneticTraderPart.cs:65-68 | more stat changes never earn fewer wedges |
| GrantCyberneticWedge.Candidates | ImplantWedgeTrader/Objects/Parts/CyberneticTraderPart.cs:52-53 | the `FindAll` result as positions in the inventory; `GrantCyberneticWedge.CandidatesSpec` states which items and in what order |
| GrantCyberneticWedge.CandidatesSnoc | ImplantWedgeTrader/Objects/Parts/CyberneticTraderPart.cs:52-53 | scanning one more item adds it exactly when it has a mutation part and an unredeemed blueprint |
| GrantCyberneticWedge.CandidatesSpec | ImplantWedgeTrader/Objects/Parts/CyberneticTraderPart.cs:52-59 | the candidates are exactly the items with a mutation part and an unredeemed blueprint; there are none exactly when no item qualifies, and the first is the earliest qualifying item |
| GrantCyberneticWedge.RedeemedNeverCandidate | ImplantWedgeTrader/Objects/Parts/CyberneticTraderPart.cs:52-53 | no item whose blueprint is in the ledger is ever a candidate |
| GrantCyberneticWedge.ChooseImplant | ImplantWedgeTrader/Objects/Parts/CyberneticTraderPart.cs:80-84 | the choice is never null and is the first candidate |
| GrantCyberneticWedge.FindImplants | ImplantWedgeTrader/Objects/Parts/CyberneticTraderPart.cs:50-53 | with a ledger the scan yields exactly the candidates. Without one it throws exactly when some item has a mutation part, and otherwise yields nothing |
| GrantCyberneticWedge.CyberneticTrader.constructor | ImplantWedgeTrader/Objects/Parts/CyberneticTraderPart.cs:16 | a new part has no ledger until it is registered |
| GrantCyberneticWedge.CyberneticTrader.Register | ImplantWedgeTrader/Objects/Parts/CyberneticTraderPart.cs:24-28 | registering leaves an empty ledger, whatever was recorded before |
| GrantCyberneticWedge.CyberneticTrader.AwardChips | ImplantWedgeTrader/Objects/Parts/CyberneticTraderPart.cs:95-100 | a created wedge is handed over as one `CreditWedge` stack of the given size; a failed creation throws before anything changes |
| GrantCyberneticWedge.CyberneticTrader.DoTrade | ImplantWedgeTrader/Objects/Parts/CyberneticTraderPart.cs:48-78 | with no candidate nothing changes; a missing ledger or a failed wedge creation faults before any change. Otherwise, for the earliest candidate: one stack of its capped tier value is handed over, its blueprint alone joins the ledger, and it alone is destroyed |
| GrantCyberneticWedge.LedgerGrowthShrinksCandidates | ImplantWedgeTrader/Objects/Parts/CyberneticTraderPart.cs:52-53 | a larger ledger never adds candidates, so each recorded trade only shrinks what later trades offer |

## Left out

- All player-facing text is left out: message-queue lines, popups, and `CheckPlayerImplants`' listing of up to five items. They are presentation only. The menu labels of the conversation handler are kept, because their plural rule is a stated behaviour.
- The `&N)` choice string and `Popup.PickOption` are left out. The player's pick is an input integer.
- Event routing is left out: `FireEvent`, `WantEvent`, the interaction-option registration, and the `HandleEvent` fall-through to the base class.
- The null-player guard of the conversation handler is left out, as are its null `Body` and `Inventory` guards. The model's player always has both.
- Host object calls become descriptor fields and sequence updates. These are `HasPart`, `HasTag`, the property getters, `GrantStatChanges().Count` (the mutation's stat-change count), `Destroy`, `RemoveFromContext`, `ForceUnequip` and `TakeObject`.
- Unequipping a worn implant is modelled by its net effect only: the body part is left empty. An item that occupies several body parts is not modelled.
- Wedges are kept in a list of their own beside the inventory, not stacked into it. Stack merging is not modelled.
- The wedge factory is an oracle saying which creation attempts succeed. Exceptions the host might throw while taking objects are not modelled. The try/catch in the fullest version's `AwardChips` therefore has nothing to catch.
- Null-reference faults of the early version are modelled as the `Faulted` outcome with no change. They arise from a ledger before `Register` and from a failed wedge creation. The host's handling of the exception is not modelled.
- In the conversation handler, a choice the menu does not have throws at `implants[choice]` before any change. It is modelled as the `BadChoice` outcome with no change.
- Culture-sensitive `ToLower` is modelled as ASCII case folding. Non-ASCII letters keep their case.
- The null check after `ChooseImplant` in the early version is left out. `ChooseImplant` never returns null, and its contract says so.
- Saving and loading the ledgers, the debug logger, and both trader injectors are not part of this model. They only serialise state, log, or place the NPC in the world.
- CyberneticTraderMod.CyberneticTrader.AwardChips: the chip count is a `nat`, not the source's `int`. The only caller passes an item value, which is never negative.
- CyberneticValueMonotoneInTier: holds only while the raised complexity score fits a 32-bit `int`. The C# `complexity +=` wraps silently, and `CyberneticTraderMod.TierWrapBreaksMonotonicity` shows the value falling from 3 to 1 past that point. Game tiers are small, so the wrap needs a Tier near 2^31.
- CyberneticValueMonotoneInRarity: holds only while the rarer complexity score fits a 32-bit `int`. `CyberneticTraderMod.RarityWrapBreaksMonotonicity` shows a Rare tag taking the value from 3 to 1 at Tier 2147483646.
- Item properties are unbounded integers in the model. Only the complexity sum, the one place where C# arithmetic can overflow, is reduced to 32 bits.
