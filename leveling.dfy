/** XP levelling arithmetic (src/utils/leveling.ts): levels of 100 XP each, progress through the
    current level, the six title tiers and their display colours. XP is an integer; negative
    values are admitted because the functions accept any number. */
module Leveling {

  /** The six titles, lowest tier first. */
  const Titles: seq<string> := ["Bronze", "Silver", "Gold", "Diamond", "Platinum", "Grandmaster"]

  /** The colour class of any string that is not one of the six titles. */
  const DefaultColor: string := "text-gray-500"

  /** getLevelFromXP: Math.floor(xp / 100). Dafny's `/` on int is Euclidean, which is floor
      division for the positive divisor 100. */
  function LevelFromXP(xp: int): (level: int)
    ensures level * 100 <= xp < (level + 1) * 100
  {
    xp / 100
  }

  /** The bounds above determine the level. */
  lemma LevelIsUnique(xp: int, level: int)
    requires level * 100 <= xp < (level + 1) * 100
    ensures level == LevelFromXP(xp)
  {
  }

  lemma LevelMonotone(a: int, b: int)
    requires a <= b
    ensures LevelFromXP(a) <= LevelFromXP(b)
  {
  }

  /** getXPForNextLevel: the first XP value of the next level. */
  function XPForNextLevel(xp: int): (next: int)
    ensures xp < next <= xp + 100
    ensures next % 100 == 0
    ensures LevelFromXP(next) == LevelFromXP(xp) + 1
  {
    var level := LevelFromXP(xp);
    LevelIsUnique(level * 100 + 100, level + 1);
    (level + 1) * 100
  }

  function Min(a: real, b: real): real { if a <= b then a else b }
  function Max(a: real, b: real): real { if a >= b then a else b }

  /** getXPProgress: the percentage of the current level already earned, clamped to [0, 100].
      Computed over the reals; IEEE rounding is not modelled. */
  function XPProgress(xp: int): (progress: real)
    ensures 0.0 <= progress <= 100.0
  {
    var currentLevel := LevelFromXP(xp);
    var currentLevelXP := currentLevel * 100;
    var nextLevelXP := (currentLevel + 1) * 100;
    var raw := ((xp - currentLevelXP) as real / (nextLevelXP - currentLevelXP) as real) * 100.0;
    Min(100.0, Max(0.0, raw))
  }

  /** For integer XP the clamp never bites: the progress is the XP earned inside the level,
      which is below 100. */
  lemma XPProgressIsRemainder(xp: int)
    ensures XPProgress(xp) == (xp % 100) as real
    ensures XPProgress(xp) < 100.0
  {
    var level := LevelFromXP(xp);
    assert xp - level * 100 == xp % 100;
  }

  /** getUserTitle: the if-chain on level thresholds 50, 40, 30, 20, 10. */
  function UserTitle(level: int): (title: string)
    ensures title in Titles
  {
    if level >= 50 then "Grandmaster"
    else if level >= 40 then "Platinum"
    else if level >= 30 then "Diamond"
    else if level >= 20 then "Gold"
    else if level >= 10 then "Silver"
    else "Bronze"
  }

  /** The position of a title in the tier order (0 for Bronze, 5 for Grandmaster). */
  function TierOf(title: string): (tier: nat)
    requires title in Titles
    ensures tier < |Titles| && Titles[tier] == title
  {
    if title == "Bronze" then 0
    else if title == "Silver" then 1
    else if title == "Gold" then 2
    else if title == "Diamond" then 3
    else if title == "Platinum" then 4
    else 5
  }

  /** Reference definition of the tiers: one tier per ten levels, Bronze for every level below
      10 (negative levels included) and Grandmaster from 50 on. */
  lemma UserTitleByDecade(level: int)
    ensures UserTitle(level) == Titles[if level < 0 then 0 else if level / 10 > 5 then 5 else level / 10]
  {
  }

  /** A higher level never yields a lower tier. */
  lemma UserTitleMonotone(a: int, b: int)
    requires a <= b
    ensures TierOf(UserTitle(a)) <= TierOf(UserTitle(b))
  {
  }

  /** getTitleColor: the switch on the title string. */
  function TitleColor(title: string): (color: string)
    ensures color == DefaultColor <==> title !in Titles
  {
    match title
    case "Grandmaster" => "text-yellow-400"
    case "Platinum" => "text-gray-300"
    case "Diamond" => "text-blue-400"
    case "Gold" => "text-yellow-500"
    case "Silver" => "text-gray-400"
    case "Bronze" => "text-amber-700"
    case _ => DefaultColor
  }

  /** The six titles have six pairwise distinct colours. */
  lemma TitleColorsDistinct(i: nat, j: nat)
    requires i < j < |Titles|
    ensures TitleColor(Titles[i]) != TitleColor(Titles[j])
  {
  }
}
