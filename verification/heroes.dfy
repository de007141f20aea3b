/** What only the hero does (`Hero`): picking up, dropping and buying
    equipment, going hungry, and the carry-over levelling of `gainXP`. */
module Heroes {
  import opened Wrappers
  import opened Lists
  import opened Creatures

  /** `Hero.defaultLevelSize`: the xp needed to leave level `l` is `25 * l`. */
  const LevelSize := 25

  /** `Hero.take`: the equipment named "gold" becomes one more coin; anything
      else is appended to the inventory, even past its ten places (the game
      then only complains). */
  function Take(h: Creature, item: Item): (r: Creature)
    ensures item.gold ==> r == h.(gold := h.gold + 1)
    ensures !item.gold ==> r == h.(inventory := h.inventory + [item])
  {
    if item.gold then h.(gold := h.gold + 1) else h.(inventory := h.inventory + [item])
  }

  /** `Hero.checkInvSize`: there is room to buy while the inventory holds at
      most ten items. */
  predicate HasRoom(h: Creature)
  {
    |h.inventory| <= InventorySize
  }

  /** `Hero.deleteItem`: the first occurrence of the item leaves the
      inventory; an item that is not there changes nothing. */
  function DeleteItem(h: Creature, item: Item): (r: Creature)
    ensures item in h.inventory ==>
      && |r.inventory| == |h.inventory| - 1
      && multiset(r.inventory) == multiset(h.inventory) - multiset{item}
      && r.inventory == RemoveFirst(h.inventory, item)
    ensures item !in h.inventory ==> r == h
    ensures r == h.(inventory := r.inventory)
  {
    if |h.inventory| > 0 && item in h.inventory then h.(inventory := RemoveFirst(h.inventory, item)) else h
  }

  /** Taking an item and deleting it again restores the inventory's contents,
      and the inventory itself when the item was not already in it. */
  lemma TakeThenDelete(h: Creature, item: Item)
    requires !item.gold
    ensures multiset(DeleteItem(Take(h, item), item).inventory) == multiset(h.inventory)
    ensures item !in h.inventory ==> DeleteItem(Take(h, item), item) == h
  {
    var t := Take(h, item);
    assert t.inventory[|h.inventory|] == item;
    if item !in h.inventory {
      assert FirstIndex(t.inventory, item) == |h.inventory|;
      assert t.inventory[..|h.inventory|] == h.inventory;
    }
  }

  /** `Hero.verifyStomach`: an empty stomach costs one hit point. */
  function VerifyStomach(h: Creature): (r: Creature)
    ensures r.hp == (if h.stomach == 0 then h.hp - 1 else h.hp)
    ensures r == h.(hp := r.hp)
  {
    if h.stomach == 0 then h.(hp := h.hp - 1) else h
  }

  /** `Hero.buy`: with room in the inventory and enough gold, the price is
      paid and the item taken; otherwise nothing changes. */
  function Buy(h: Creature, item: Item): (r: Creature)
    ensures HasRoom(h) && h.gold >= item.price ==>
      && r.gold == h.gold - item.price + (if item.gold then 1 else 0)
      && r.gold >= 0
      && r.inventory == (if item.gold then h.inventory else h.inventory + [item])
      && |r.inventory| <= InventorySize + 1
    ensures !(HasRoom(h) && h.gold >= item.price) ==> r == h
    ensures r == h.(gold := r.gold, inventory := r.inventory)
  {
    if HasRoom(h) && h.gold >= item.price then Take(h.(gold := h.gold - item.price), item) else h
  }

  /** `Hero.gainLevel(1)`: one level more, one strength point more, and as
      many gold coins as the new level plus one. */
  function GainLevel(h: Creature): (r: Creature)
    ensures r.level == h.level + 1 && r.strength == h.strength + 1 && r.gold == h.gold + 1 + r.level
    ensures r == h.(level := r.level, strength := r.strength, gold := r.gold)
  {
    var level := h.level + 1;
    h.(level := level, strength := h.strength + 1, gold := h.gold + 1 + level)
  }

  /** The xp spent climbing from level `lo` to level `hi`. */
  function Thresholds(lo: int, hi: int): int
    requires lo <= hi
    decreases hi - lo
  {
    if lo == hi then 0 else Thresholds(lo, hi - 1) + LevelSize * (hi - 1)
  }

  /** The gold won climbing from level `lo` to level `hi`. */
  function LevelGold(lo: int, hi: int): int
    requires lo <= hi
    decreases hi - lo
  {
    if lo == hi then 0 else LevelGold(lo, hi - 1) + 1 + hi
  }

  /** The `while` loop of `gainXP`: while the xp strictly exceeds the current
      level's threshold, the threshold is spent and a level gained. The
      result keeps every xp point (spent or left), stops at or below its
      threshold, and gains a level exactly when the xp was above the first
      threshold. */
  function LevelUp(h: Creature): (r: Creature)
    decreases (if h.level < 1 then 1 - h.level else 0), h.xp
    ensures r.level >= h.level
    ensures r.xp <= LevelSize * r.level
    ensures h.xp == r.xp + Thresholds(h.level, r.level)
    ensures r.level > h.level <==> h.xp > LevelSize * h.level
    ensures r.level > h.level ==> r.xp > 0
    ensures r.strength == h.strength + (r.level - h.level)
    ensures r.gold == h.gold + LevelGold(h.level, r.level)
    ensures r == h.(level := r.level, strength := r.strength, gold := r.gold, xp := r.xp)
  {
    if h.xp > LevelSize * h.level then
      var next := GainLevel(h).(xp := h.xp - LevelSize * h.level);
      var r := LevelUp(next);
      ThresholdsStep(h.level, r.level);
      LevelGoldStep(h.level, r.level);
      r
    else h
  }

  /** Peeling the first level off a climb. */
  lemma {:induction false} ThresholdsStep(lo: int, hi: int)
    requires lo < hi
    ensures Thresholds(lo, hi) == LevelSize * lo + Thresholds(lo + 1, hi)
    decreases hi - lo
  {
    if lo + 1 < hi {
      ThresholdsStep(lo, hi - 1);
    }
  }

  lemma {:induction false} LevelGoldStep(lo: int, hi: int)
    requires lo < hi
    ensures LevelGold(lo, hi) == 1 + (lo + 1) + LevelGold(lo + 1, hi)
    decreases hi - lo
  {
    if lo + 1 < hi {
      LevelGoldStep(lo, hi - 1);
    }
  }

  /** `Hero.gainXP(k)` (`gain_xp` in the graphical game): the xp is credited,
      then levels are gained while it exceeds the threshold. */
  function GainXP(h: Creature, k: int): (r: Creature)
    ensures r.xp <= LevelSize * r.level && r.level >= h.level
    ensures h.xp + k == r.xp + Thresholds(h.level, r.level)
    ensures r.level > h.level <==> h.xp + k > LevelSize * h.level
    ensures r.strength == h.strength + (r.level - h.level)
    ensures r.gold == h.gold + LevelGold(h.level, r.level)
    ensures r == h.(level := r.level, strength := r.strength, gold := r.gold, xp := r.xp)
  {
    LevelUp(h.(xp := h.xp + k))
  }

  /** Climbing from a level of at least one costs at least the first level's
      threshold. */
  lemma {:induction false} ThresholdsAtLeastFirst(lo: int, hi: int)
    requires 0 <= lo < hi
    ensures Thresholds(lo, hi) >= LevelSize * lo
    decreases hi - lo
  {
    ThresholdsStep(lo, hi);
    if lo + 1 < hi {
      ThresholdsAtLeastFirst(lo + 1, hi);
    }
  }

  lemma {:induction false} ThresholdsSplit(a: int, b: int, c: int)
    requires a <= b <= c
    ensures Thresholds(a, c) == Thresholds(a, b) + Thresholds(b, c)
    decreases c - b
  {
    if b < c {
      ThresholdsSplit(a, b, c - 1);
    }
  }

  /** The outcome of levelling is the only level and xp that account for
      every xp point, end at or below their threshold, and leave some xp
      whenever a level was gained. */
  lemma LevelUpUnique(h: Creature, level: int, xp: int)
    requires h.level >= 1 && level >= h.level
    requires h.xp == xp + Thresholds(h.level, level)
    requires xp <= LevelSize * level
    requires level > h.level ==> xp > 0
    ensures LevelUp(h).level == level && LevelUp(h).xp == xp
  {
    var r := LevelUp(h);
    if r.level < level {
      ThresholdsSplit(h.level, r.level, level);
      ThresholdsAtLeastFirst(r.level, level);
    } else if level < r.level {
      ThresholdsSplit(h.level, level, r.level);
      ThresholdsAtLeastFirst(level, r.level);
    }
  }

  /** Sixty xp earned at level one with no xp bring the hero to level two
      with 35 xp left: the second level's threshold is 50, so the carry-over
      does not reach level three. */
  lemma SixtyXpAtLevelOne(h: Creature)
    requires h.level == 1 && h.xp == 0
    ensures GainXP(h, 60).level == 2 && GainXP(h, 60).xp == 35
    ensures GainXP(h, 60).strength == h.strength + 1 && GainXP(h, 60).gold == h.gold + 3
  {
    var r := GainXP(h, 60);
    LevelUpUnique(h.(xp := 60), 2, 35);
  }

  /** Xp exactly at the threshold does not level up. */
  lemma AtThresholdStays(h: Creature, k: int)
    requires h.xp + k == LevelSize * h.level
    ensures GainXP(h, k).level == h.level && GainXP(h, k).xp == h.xp + k
  {
  }
}
