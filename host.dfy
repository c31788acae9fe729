/** The narrow view of the host game that the traders use: an item descriptor
    (what `HasPart`, `HasTag` and the property getters can see of one game
    object), the credit wedges the factory makes, and the player's body with
    its equipped body parts, inventory and received wedges. */
module Host {

  datatype Option<T> = None | Some(value: T)

  /** One game object as the traders see it.
      - `blueprint`: the blueprint id shared by every instance of the item type;
      - `parts`: the names of its parts, in `PartsList` order (`HasPart(n)` is `n in parts`);
      - `tier`, `value`, `licensePoints`: the int properties, `None` when absent;
      - `category`, `wornOn`: the string properties, `None` when absent (null);
      - `mutation`: the stat-change count of its mutation part, `None` when it has none. */
  datatype Item = Item(
    blueprint: string,
    displayName: string,
    tags: set<string>,
    parts: seq<string>,
    tier: Option<int>,
    value: Option<int>,
    licensePoints: Option<int>,
    category: Option<string>,
    wornOn: Option<string>,
    mutation: Option<nat>)

  predicate HasPart(item: Item, name: string) {
    name in item.parts
  }

  predicate HasTag(item: Item, tag: string) {
    tag in item.tags
  }

  /** `GetIntProperty("Tier", default)`. */
  function TierOr(item: Item, default: int): int {
    if item.tier.Some? then item.tier.value else default
  }

  /** A credit wedge object: its blueprint and its stack size. */
  datatype Wedge = Wedge(blueprint: string, stack: nat)

  /** What `CreateObject("CreditWedge1")` yields when it succeeds. */
  const SingleWedge := Wedge("CreditWedge1", 1)

  /** `n` single credit wedges. */
  function Singles(n: nat): (r: seq<Wedge>)
    ensures |r| == n
    ensures forall i :: 0 <= i < n ==> r[i] == SingleWedge
  {
    if n == 0 then [] else Singles(n - 1) + [SingleWedge]
  }

  /** How many of the first `n` creation attempts succeed, when attempt `i`
      succeeds exactly if `created(i)` holds; never more than `n`, and all `n`
      when the factory never fails. */
  function Delivered(created: nat -> bool, n: nat): (r: nat)
    ensures r <= n
    ensures (forall i :: 0 <= i < n ==> created(i)) ==> r == n
    ensures (forall i :: 0 <= i < n ==> !created(i)) ==> r == 0
  {
    if n == 0 then 0 else Delivered(created, n - 1) + (if created(n - 1) then 1 else 0)
  }

  /** The player's body. `bodyParts[k]` is the item equipped on body part `k`
      (`None` when empty); `inventory` is the carried items in inventory order;
      `wedges` is the credit wedges the traders have handed over. */
  class Body {
    var bodyParts: seq<Option<Item>>
    var inventory: seq<Item>
    var wedges: seq<Wedge>

    constructor (bodyParts: seq<Option<Item>>, inventory: seq<Item>)
      ensures this.bodyParts == bodyParts && this.inventory == inventory && wedges == []
    {
      this.bodyParts := bodyParts;
      this.inventory := inventory;
      wedges := [];
    }
  }
}
