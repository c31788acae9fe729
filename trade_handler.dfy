/** The conversation-driven trader (`CyberneticTradeHandler`): a fixed table
    of implant values by display name, a menu of the player's equipped and
    carried implants with a trailing Cancel, and an exchange that removes the
    chosen implant and then hands over its value in single wedges. There is
    no ledger. */
module ConversationTrade {
  import opened Host
  import opened Text
  import Seqs

  /** `ImplantValues`: display name to wedges. */
  const ImplantValues: map<string, int> := map[
    "Bionic Heart" := 1, "Optical Technician" := 1, "Optical Multiscanner" := 1,
    "Nocturnal Apex" := 1, "Hyper-Elastic Ankle" := 1, "Parabolic Muscular Subroutine" := 1,
    "Pentaceps" := 1, "Carbide Chef" := 1, "Inflatable Axons" := 1,
    "Bionic Liver" := 2, "Bionic Lungs" := 2, "Translucent Skin" := 2,
    "Dermal Insulation" := 2, "Metamorphic Polygel" := 2, "Artificial Heart" := 2,
    "Stabilizer Arm Locks" := 2, "Motorized Treads" := 2, "Spring-Loaded Feet" := 2,
    "Bionic Limbs" := 3, "Cybernetic Cranium" := 3, "Night Vision" := 3,
    "Heightened Hearing" := 3, "Heightened Smell" := 3, "Heightened Taste" := 3,
    "Heightened Touch" := 3, "Electromagnetic Pulse" := 3, "Electrical Generation" := 3,
    "Magnetic Pulse" := 3]

  /** Every table entry is worth 1 to 3 wedges. */
  lemma TableValuesInRange()
    ensures forall name :: name in ImplantValues ==> 1 <= ImplantValues[name] <= 3
  {
  }

  /** `IsCyberneticImplant`: false for null; otherwise an implant tag, a table
      name or an implant part. */
  predicate IsCyberneticImplant(obj: Option<Item>) {
    if obj.None? then false
    else if HasTag(obj.value, "Cybernetic") || HasTag(obj.value, "Implant") || HasTag(obj.value, "Biotech") then true
    else if obj.value.displayName in ImplantValues then true
    else if HasPart(obj.value, "Cybernetics") || HasPart(obj.value, "Implant") || HasPart(obj.value, "Biotech") then true
    else false
  }

  /** Every item named in the table is classified as an implant, whatever its tags and parts. */
  lemma TableNamesAreImplants(item: Item)
    requires item.displayName in ImplantValues
    ensures IsCyberneticImplant(Some(item))
  {
  }

  /** `GetImplantValue`: 0 for null; the table's value for a table name,
      ignoring tags; otherwise 3 for Rare/Complex, 2 for Advanced, else 1. */
  function GetImplantValue(implant: Option<Item>): (r: nat)
    ensures implant.None? <==> r == 0
    ensures implant.Some? ==> 1 <= r <= 3
    ensures implant.Some? && implant.value.displayName in ImplantValues ==>
      r == ImplantValues[implant.value.displayName]
    ensures implant.Some? && implant.value.displayName !in ImplantValues ==>
      (r == 3 <==> HasTag(implant.value, "Rare") || HasTag(implant.value, "Complex"))
    ensures (implant.Some? && implant.value.displayName !in ImplantValues &&
             !HasTag(implant.value, "Rare") && !HasTag(implant.value, "Complex")) ==>
      (r == 2 <==> HasTag(implant.value, "Advanced")) &&
      (r == 1 <==> !HasTag(implant.value, "Advanced"))
  {
    if implant.None? then 0
    else if implant.value.displayName in ImplantValues then
      TableValuesInRange();
      ImplantValues[implant.value.displayName]
    else if HasTag(implant.value, "Rare") || HasTag(implant.value, "Complex") then 3
    else if HasTag(implant.value, "Advanced") then 2
    else 1
  }

  /** Tags never change the value of an item whose name is in the table. */
  lemma TableOverridesTags(item: Item, tags: set<string>)
    requires item.displayName in ImplantValues
    ensures GetImplantValue(Some(item.(tags := tags))) == GetImplantValue(Some(item))
  {
  }

  // ---------------------------------------------------------------- candidates

  /** Where a candidate is: equipped on body part `slot`, or carried at inventory `index`. */
  datatype Location = Worn(slot: nat) | Carried(index: nat)

  predicate ValidLocation(bodyParts: seq<Option<Item>>, inventory: seq<Item>, loc: Location) {
    match loc
    case Worn(k) => k < |bodyParts| && bodyParts[k].Some?
    case Carried(k) => k < |inventory|
  }

  function ItemAt(bodyParts: seq<Option<Item>>, inventory: seq<Item>, loc: Location): Item
    requires ValidLocation(bodyParts, inventory, loc)
  {
    match loc
    case Worn(k) => bodyParts[k].value
    case Carried(k) => inventory[k]
  }

  /** The first gathering loop: the equipped implants, in body-part order. */
  function WornImplants(bodyParts: seq<Option<Item>>): seq<Location> {
    if bodyParts == [] then []
    else
      var k := |bodyParts| - 1;
      WornImplants(bodyParts[..k]) + (if IsCyberneticImplant(bodyParts[k]) then [Worn(k)] else [])
  }

  /** The second gathering loop: the carried implants, in inventory order. */
  function CarriedImplants(inventory: seq<Item>): seq<Location> {
    if inventory == [] then []
    else
      var k := |inventory| - 1;
      CarriedImplants(inventory[..k]) + (if IsCyberneticImplant(Some(inventory[k])) then [Carried(k)] else [])
  }

  /** `implants`: the equipped implants in body-part order, then the carried ones in inventory order. */
  function Candidates(bodyParts: seq<Option<Item>>, inventory: seq<Item>): seq<Location> {
    WornImplants(bodyParts) + CarriedImplants(inventory)
  }

  /** The equipped list holds exactly the implant-bearing body parts, in ascending order. */
  lemma {:induction false} WornImplantsSpec(bodyParts: seq<Option<Item>>)
    ensures forall j :: 0 <= j < |WornImplants(bodyParts)| ==>
      WornImplants(bodyParts)[j].Worn? && WornImplants(bodyParts)[j].slot < |bodyParts| &&
      IsCyberneticImplant(bodyParts[WornImplants(bodyParts)[j].slot])
    ensures forall k :: 0 <= k < |bodyParts| && IsCyberneticImplant(bodyParts[k]) ==>
      Worn(k) in WornImplants(bodyParts)
    ensures forall a, b :: 0 <= a < b < |WornImplants(bodyParts)| ==>
      WornImplants(bodyParts)[a].slot < WornImplants(bodyParts)[b].slot
  {
    if bodyParts != [] {
      var k := |bodyParts| - 1;
      var prefix := bodyParts[..k];
      WornImplantsSpec(prefix);
      assert forall i :: 0 <= i < k ==> prefix[i] == bodyParts[i];
    }
  }

  /** The carried list holds exactly the implants in the inventory, in ascending order. */
  lemma {:induction false} CarriedImplantsSpec(inventory: seq<Item>)
    ensures forall j :: 0 <= j < |CarriedImplants(inventory)| ==>
      CarriedImplants(inventory)[j].Carried? && CarriedImplants(inventory)[j].index < |inventory| &&
      IsCyberneticImplant(Some(inventory[CarriedImplants(inventory)[j].index]))
    ensures forall k :: 0 <= k < |inventory| && IsCyberneticImplant(Some(inventory[k])) ==>
      Carried(k) in CarriedImplants(inventory)
    ensures forall a, b :: 0 <= a < b < |CarriedImplants(inventory)| ==>
      CarriedImplants(inventory)[a].index < CarriedImplants(inventory)[b].index
  {
    if inventory != [] {
      var k := |inventory| - 1;
      var prefix := inventory[..k];
      CarriedImplantsSpec(prefix);
      assert forall i :: 0 <= i < k ==> prefix[i] == inventory[i];
    }
  }

  /** Every candidate names a place holding an implant, and every equipped or
      carried implant is a candidate. */
  lemma CandidatesSpec(bodyParts: seq<Option<Item>>, inventory: seq<Item>)
    ensures forall j :: 0 <= j < |Candidates(bodyParts, inventory)| ==>
      ValidLocation(bodyParts, inventory, Candidates(bodyParts, inventory)[j]) &&
      IsCyberneticImplant(Some(ItemAt(bodyParts, inventory, Candidates(bodyParts, inventory)[j])))
    ensures forall k :: 0 <= k < |bodyParts| && IsCyberneticImplant(bodyParts[k]) ==>
      Worn(k) in Candidates(bodyParts, inventory)
    ensures forall k :: 0 <= k < |inventory| && IsCyberneticImplant(Some(inventory[k])) ==>
      Carried(k) in Candidates(bodyParts, inventory)
  {
    WornImplantsSpec(bodyParts);
    CarriedImplantsSpec(inventory);
    var worn := WornImplants(bodyParts);
    var c := Candidates(bodyParts, inventory);
    forall j | 0 <= j < |c|
      ensures ValidLocation(bodyParts, inventory, c[j]) && IsCyberneticImplant(Some(ItemAt(bodyParts, inventory, c[j])))
    {
      if j >= |worn| {
        assert c[j] == CarriedImplants(inventory)[j - |worn|];
      }
    }
  }

  /** The equipped implants come first: a candidate is equipped exactly when it
      lies among the first |WornImplants| entries. */
  lemma CandidatesWornFirst(bodyParts: seq<Option<Item>>, inventory: seq<Item>)
    ensures forall j :: 0 <= j < |Candidates(bodyParts, inventory)| ==>
      (Candidates(bodyParts, inventory)[j].Worn? <==> j < |WornImplants(bodyParts)|)
  {
    WornImplantsSpec(bodyParts);
    CarriedImplantsSpec(inventory);
  }

  // ---------------------------------------------------------------- options

  function DigitChar(d: nat): char
    requires d < 10
  {
    ('0' as int + d) as char
  }

  /** Decimal text of a natural number: one digit below ten, and only digits. */
  function NatToString(n: nat): (r: string)
    ensures |r| >= 1
    ensures n < 10 ==> r == [DigitChar(n)]
    ensures forall i :: 0 <= i < |r| ==> '0' <= r[i] <= '9'
  {
    if n < 10 then [DigitChar(n)] else NatToString(n / 10) + [DigitChar(n % 10)]
  }

  /** A menu entry: the name, the value, and "wedge" or "wedges". */
  function Label(name: string, value: nat): string {
    name + " (worth " + NatToString(value) + " credit wedge" + (if value > 1 then "s" else "") + ")"
  }

  /** The label speaks of wedges in the plural exactly when the value is more than 1. */
  lemma LabelPlural(name: string, value: nat)
    ensures EndsWith(Label(name, value), "wedges)") <==> value > 1
  {
    var head := name + " (worth " + NatToString(value) + " credit wedge";
    var l := Label(name, value);
    assert |head| >= 13;
    if value > 1 {
      assert l == head + "s)";
      assert l[|l| - 7..] == head[|head| - 5..] + "s)";
      assert head[|head| - 5..] == "wedge";
    } else {
      assert l == head + ")";
      assert l[|l| - 1] == ')' && l[|l| - 2] == 'e';
      assert l[|l| - 7..][5] == 'e';
    }
  }

  /** `options`: one label per candidate, in candidate order, then "Cancel". */
  function Options(bodyParts: seq<Option<Item>>, inventory: seq<Item>, implants: seq<Location>): (r: seq<string>)
    requires forall j :: 0 <= j < |implants| ==> ValidLocation(bodyParts, inventory, implants[j])
    ensures |r| == |implants| + 1 && r[|implants|] == "Cancel"
    ensures forall j :: 0 <= j < |implants| ==>
      r[j] == Label(ItemAt(bodyParts, inventory, implants[j]).displayName,
                    GetImplantValue(Some(ItemAt(bodyParts, inventory, implants[j]))))
  {
    OfferLabels(bodyParts, inventory, implants) + ["Cancel"]
  }

  function OfferLabels(bodyParts: seq<Option<Item>>, inventory: seq<Item>, implants: seq<Location>): (r: seq<string>)
    requires forall j :: 0 <= j < |implants| ==> ValidLocation(bodyParts, inventory, implants[j])
    ensures |r| == |implants|
    ensures forall j :: 0 <= j < |implants| ==>
      r[j] == Label(ItemAt(bodyParts, inventory, implants[j]).displayName,
                    GetImplantValue(Some(ItemAt(bodyParts, inventory, implants[j]))))
  {
    if implants == [] then []
    else
      var item := ItemAt(bodyParts, inventory, implants[|implants| - 1]);
      OfferLabels(bodyParts, inventory, implants[..|implants| - 1]) + [Label(item.displayName, GetImplantValue(Some(item)))]
  }

  /** Each offer's label is plural exactly when that implant is worth more than one wedge. */
  lemma OptionsPlural(bodyParts: seq<Option<Item>>, inventory: seq<Item>, implants: seq<Location>, j: nat)
    requires forall i :: 0 <= i < |implants| ==> ValidLocation(bodyParts, inventory, implants[i])
    requires j < |implants|
    ensures EndsWith(Options(bodyParts, inventory, implants)[j], "wedges)") <==>
      GetImplantValue(Some(ItemAt(bodyParts, inventory, implants[j]))) > 1
  {
    var item := ItemAt(bodyParts, inventory, implants[j]);
    LabelPlural(item.displayName, GetImplantValue(Some(item)));
  }

  // ---------------------------------------------------------------- exchange

  datatype Outcome =
    | NoImplants                       // nothing to offer
    | Cancelled                        // -1 or the Cancel entry
    | BadChoice                        // an index the list does not have: `implants[choice]` throws
    | Exchanged(item: Item, wedges: nat)

  /** The handler's `EnterElementEvent`: gather the candidates, offer them, and
      on a real choice remove the implant and then hand over its value, one
      factory attempt per wedge (`created(i)`: attempt `i` yields a wedge). */
  method HandleEnterElement(player: Body, choice: int, created: nat -> bool) returns (outcome: Outcome)
    modifies player
    ensures var implants := Candidates(old(player.bodyParts), old(player.inventory));
      && (implants == [] ==> outcome == NoImplants)
      && (implants != [] && (choice == -1 || choice == |implants|) ==> outcome == Cancelled)
      && (implants != [] && choice != -1 && (choice < 0 || choice > |implants|) ==> outcome == BadChoice)
    ensures !outcome.Exchanged? ==> unchanged(player)
    ensures var implants := Candidates(old(player.bodyParts), old(player.inventory));
      implants != [] && 0 <= choice < |implants| ==>
        CandidatesValid(old(player.bodyParts), old(player.inventory)) &&
        var loc := implants[choice];
        var item := ItemAt(old(player.bodyParts), old(player.inventory), loc);
        var due := GetImplantValue(Some(item));
        && outcome == Exchanged(item, due)
        && player.bodyParts == (if loc.Worn? then old(player.bodyParts)[loc.slot := None] else old(player.bodyParts))
        && player.inventory == (if loc.Carried? then Seqs.RemoveAt(old(player.inventory), loc.index) else old(player.inventory))
        && player.wedges == old(player.wedges) + Singles(Delivered(created, due))
  {
    var bodyParts := player.bodyParts;
    var inventory := player.inventory;
    var implants := GatherImplants(player);
    if |implants| == 0 {
      return NoImplants;
    }

    CandidatesValidLemma(bodyParts, inventory);
    var options := BuildOptions(bodyParts, inventory, implants);
    if choice == -1 || choice == |options| - 1 {
      return Cancelled;
    }
    if choice < 0 || choice >= |implants| {
      return BadChoice;
    }

    var loc := implants[choice];
    var selectedImplant := ItemAt(bodyParts, inventory, loc);
    var creditWedges := GetImplantValue(Some(selectedImplant));

    RemoveImplant(player, loc);
    AwardWedges(player, creditWedges, created);
    outcome := Exchanged(selectedImplant, creditWedges);
  }

  /** Taking the chosen implant away: an equipped one leaves its body part
      empty, a carried one leaves the inventory; nothing else changes. */
  method RemoveImplant(player: Body, loc: Location)
    requires ValidLocation(player.bodyParts, player.inventory, loc)
    modifies player
    ensures player.bodyParts == (if loc.Worn? then old(player.bodyParts)[loc.slot := None] else old(player.bodyParts))
    ensures player.inventory == (if loc.Carried? then Seqs.RemoveAt(old(player.inventory), loc.index) else old(player.inventory))
    ensures player.wedges == old(player.wedges)
  {
    if loc.Worn? {
      player.bodyParts := player.bodyParts[loc.slot := None];
    } else {
      player.inventory := Seqs.RemoveAt(player.inventory, loc.index);
    }
  }

  /** The award loop: `n` factory attempts, each success adding one wedge. */
  method AwardWedges(player: Body, n: nat, created: nat -> bool)
    modifies player
    ensures player.wedges == old(player.wedges) + Singles(Delivered(created, n))
    ensures player.bodyParts == old(player.bodyParts) && player.inventory == old(player.inventory)
  {
    var i := 0;
    while i < n
      invariant 0 <= i <= n
      invariant player.wedges == old(player.wedges) + Singles(Delivered(created, i))
      invariant player.bodyParts == old(player.bodyParts) && player.inventory == old(player.inventory)
    {
      if created(i) {
        player.wedges := player.wedges + [SingleWedge];
      }
      i := i + 1;
    }
  }

  /** The two gathering loops: equipped implants in body-part order, then carried ones. */
  method GatherImplants(player: Body) returns (implants: seq<Location>)
    ensures implants == Candidates(player.bodyParts, player.inventory)
  {
    var bodyParts := player.bodyParts;
    var inventory := player.inventory;
    implants := [];
    var k := 0;
    while k < |bodyParts|
      invariant 0 <= k <= |bodyParts|
      invariant implants == WornImplants(bodyParts[..k])
    {
      assert bodyParts[..k + 1][..k] == bodyParts[..k];
      if bodyParts[k].Some? && IsCyberneticImplant(bodyParts[k]) {
        implants := implants + [Worn(k)];
      }
      k := k + 1;
    }
    assert bodyParts[..k] == bodyParts;
    var worn := implants;

    k := 0;
    while k < |inventory|
      invariant 0 <= k <= |inventory|
      invariant implants == worn + CarriedImplants(inventory[..k])
    {
      assert inventory[..k + 1][..k] == inventory[..k];
      if IsCyberneticImplant(Some(inventory[k])) {
        implants := implants + [Carried(k)];
      }
      k := k + 1;
    }
    assert inventory[..k] == inventory;
  }

  /** The option-building loop: one label per implant, then "Cancel". */
  method BuildOptions(bodyParts: seq<Option<Item>>, inventory: seq<Item>, implants: seq<Location>)
    returns (options: seq<string>)
    requires forall j :: 0 <= j < |implants| ==> ValidLocation(bodyParts, inventory, implants[j])
    ensures options == Options(bodyParts, inventory, implants)
  {
    options := [];
    var k := 0;
    while k < |implants|
      invariant 0 <= k <= |implants|
      invariant options == OfferLabels(bodyParts, inventory, implants[..k])
    {
      var item := ItemAt(bodyParts, inventory, implants[k]);
      assert implants[..k + 1][..k] == implants[..k];
      options := options + [Label(item.displayName, GetImplantValue(Some(item)))];
      k := k + 1;
    }
    assert implants[..k] == implants;
    options := options + ["Cancel"];
  }

  /** Every candidate names a place that holds an item. */
  predicate CandidatesValid(bodyParts: seq<Option<Item>>, inventory: seq<Item>) {
    forall j :: 0 <= j < |Candidates(bodyParts, inventory)| ==>
      ValidLocation(bodyParts, inventory, Candidates(bodyParts, inventory)[j])
  }

  lemma CandidatesValidLemma(bodyParts: seq<Option<Item>>, inventory: seq<Item>)
    ensures CandidatesValid(bodyParts, inventory)
  {
    CandidatesSpec(bodyParts, inventory);
  }
}
