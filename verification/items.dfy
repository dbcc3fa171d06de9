/** The derived attributes of one stored thing that the storage tab reads:
    category, label, quality, ticks until rot, hit points and the forbidden
    flag, and the five-part sort key built from them. */
module Items {
  import opened Options

  /** RimWorld's `QualityCategory`, in declaration order (Awful is 0). */
  datatype Quality = Awful | Poor | Normal | Good | Excellent | Masterwork | Legendary

  /** The integer a `(int)` cast of a quality gives. */
  function Rank(q: Quality): int
  {
    match q
    case Awful => 0
    case Poor => 1
    case Normal => 2
    case Good => 3
    case Excellent => 4
    case Masterwork => 5
    case Legendary => 6
  }

  /** One stored thing, as the tab sees it.
      `id` is the thing's ID number, which tells apart two stacks whose
      attributes are all equal.
      `quality` is None when the thing has no quality component.
      `rotTicks` is None when the thing has no `CompRottable`, otherwise its
      `TicksUntilRotAtCurrentTemp`.
      `forbidComp` is None when the thing has no `CompForbiddable`, otherwise
      that component's forbidden flag. */
  datatype Item = Item(
    id: int,
    category: int,
    labelText: string,
    quality: Option<Quality>,
    rotTicks: Option<int>,
    hitPoints: int,
    maxHitPoints: int,
    forbidComp: Option<bool>)

  /** `IsForbidden` for the player: only a forbiddable thing can be
      forbidden. */
  predicate IsForbidden(it: Item)
    ensures IsForbidden(it) ==> it.forbidComp.Some?
  {
    it.forbidComp == Some(true)
  }

  /** `ForbidUtility.SetForbidden(it, value, warnOnFail: false)`: sets the
      flag of a forbiddable thing and silently does nothing otherwise. */
  function SetForbidden(it: Item, value: bool): (r: Item)
    ensures it.forbidComp.Some? ==> IsForbidden(r) == value
    ensures it.forbidComp.None? ==> r == it
    ensures r.(forbidComp := it.forbidComp) == it
  {
    if it.forbidComp.Some? then it.(forbidComp := Some(value)) else it
  }

  /** The rank `TryGetQuality` reports for a thing without a quality
      component: it assigns Normal to its out-parameter before returning
      false. */
  const NoQualityRank: int := 2

  /** The quality sort key: the thing's own rank, or Normal's rank when it
      has no quality. */
  function QualityKey(it: Item): (k: int)
    ensures 0 <= k <= 6
    ensures it.quality.None? ==> k == Rank(Normal)
    ensures it.quality.Some? ==> k == Rank(it.quality.value)
  {
    match it.quality
    case None => NoQualityRank
    case Some(q) => Rank(q)
  }

  function Abs(n: int): nat
  {
    if n < 0 then -n else n
  }

  /** C#'s `int / int`: the quotient truncated toward zero, so that the
      remainder takes the sign of the dividend. */
  function TruncDiv(a: int, b: int): (q: int)
    requires b != 0
    ensures Abs(a - q * b) < Abs(b)
    ensures a >= 0 ==> a - q * b >= 0
    ensures a <= 0 ==> a - q * b <= 0
  {
    if a >= 0 && b > 0 then a / b
    else if a >= 0 then -(a / -b)
    else if b > 0 then -((-a) / b)
    else (-a) / (-b)
  }

  /** The health sort key `HitPoints / MaxHitPoints`, an integer division;
      it is undefined (the source throws) when `MaxHitPoints` is 0. */
  function HealthKey(it: Item): (k: int)
    requires it.maxHitPoints != 0
    ensures Abs(it.hitPoints - k * it.maxHitPoints) < Abs(it.maxHitPoints)
    ensures it.hitPoints >= 0 ==> it.hitPoints - k * it.maxHitPoints >= 0
    ensures it.hitPoints <= 0 ==> it.hitPoints - k * it.maxHitPoints <= 0
  {
    TruncDiv(it.hitPoints, it.maxHitPoints)
  }

  /** Within the usual range 0 <= hit points <= max, the health key is 1 at
      full health and 0 at every lower health: all damaged things tie. */
  lemma HealthKeyFullOrDamaged(it: Item)
    requires 0 <= it.hitPoints <= it.maxHitPoints && it.maxHitPoints > 0
    ensures HealthKey(it) == (if it.hitPoints == it.maxHitPoints then 1 else 0)
  {
  }

  /** The five keys of the source's OrderBy/ThenBy chain, in chain order. */
  datatype SortKey = SortKey(
    category: int,
    labelText: string,
    quality: int,
    rot: Option<int>,
    health: int)

  function Key(it: Item): SortKey
    requires it.maxHitPoints != 0
  {
    SortKey(it.category, it.labelText, QualityKey(it), it.rotTicks, HealthKey(it))
  }

  /** What each of the five keys of a thing says about it: the quality key
      is a rank, shared by unqualitied and Normal things only; the rot key
      is missing exactly for a thing that cannot rot; in the usual hit-point
      range the health key is 1 exactly at full health. */
  lemma KeyFields(it: Item)
    requires it.maxHitPoints != 0
    ensures 0 <= Key(it).quality <= 6
    ensures Key(it).quality == Rank(Normal) <==> it.quality.None? || it.quality == Some(Normal)
    ensures Key(it).rot.None? <==> it.rotTicks.None?
    ensures 0 <= it.hitPoints <= it.maxHitPoints ==>
      (Key(it).health == 1 <==> it.hitPoints == it.maxHitPoints)
  {
  }

  /** An unqualitied thing has the same sort key as an otherwise identical
      thing of Normal quality, and a different key from one of any other
      quality. */
  lemma UnqualifiedKeyedAsNormal(a: Item, q: Quality)
    requires a.quality.None? && a.maxHitPoints != 0
    ensures Key(a) == Key(a.(quality := Some(q))) <==> q == Normal
  {
  }

  /** The selected storage building: an outdoor root cellar or ordinary
      storage. */
  datatype ContainerKind = OutdoorCellar | StandardStorage

  /** A map cell, one of the building's slot cells. */
  datatype Cell = Cell(x: int, z: int)

  /** The storage building as the tab reads it: its kind, whether it carries
      the hidden-contents component, its def's `maxItemsInCell` and its slot
      cells. */
  datatype Container = Container(
    kind: ContainerKind,
    hasHiddenContents: bool,
    maxItemsInCell: nat,
    slotCells: seq<Cell>)
}
