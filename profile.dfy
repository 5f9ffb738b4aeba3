/** The profile page's level tiers: `getNextLevel` maps a points balance to a
    level, the points at which the next level starts, and a badge colour. */
module ProfilePage {

  datatype Level = Iniciante | Colaborador | Dedicado | Mestre

  datatype LevelInfo = LevelInfo(level: Level, next: int, color: string)

  function Rank(l: Level): nat {
    match l
    case Iniciante => 0
    case Colaborador => 1
    case Dedicado => 2
    case Mestre => 3
  }

  /** The least number of points that reaches a level. */
  function Floor(l: Level): int {
    match l
    case Iniciante => 0
    case Colaborador => 50
    case Dedicado => 100
    case Mestre => 200
  }

  function GetNextLevel(points: int): (r: LevelInfo)
    ensures points < 50 ==> r == LevelInfo(Iniciante, 50, "bg-green-500")
    ensures 50 <= points < 100 ==> r == LevelInfo(Colaborador, 100, "bg-blue-500")
    ensures 100 <= points < 200 ==> r == LevelInfo(Dedicado, 200, "bg-purple-500")
    ensures 200 <= points ==> r == LevelInfo(Mestre, 500, "bg-orange-500")
  {
    if points < 50 then LevelInfo(Iniciante, 50, "bg-green-500")
    else if points < 100 then LevelInfo(Colaborador, 100, "bg-blue-500")
    else if points < 200 then LevelInfo(Dedicado, 200, "bg-purple-500")
    else LevelInfo(Mestre, 500, "bg-orange-500")
  }

  /** The level is the highest one whose floor the balance reaches, and below
      the top level `next` is the floor of the level after it, which the
      balance has not reached yet. */
  lemma LevelIsHighestReached(points: int, l: Level)
    requires points >= 0
    ensures Floor(GetNextLevel(points).level) <= points
    ensures Floor(l) <= points ==> Rank(l) <= Rank(GetNextLevel(points).level)
    ensures points < 200 ==> points < GetNextLevel(points).next
    ensures GetNextLevel(points).level != Mestre ==>
      exists m :: Rank(m) == Rank(GetNextLevel(points).level) + 1 && Floor(m) == GetNextLevel(points).next
  {
    var r := GetNextLevel(points);
    if r.level == Iniciante { assert Rank(Colaborador) == 1 && Floor(Colaborador) == 50; }
    if r.level == Colaborador { assert Rank(Dedicado) == 2 && Floor(Dedicado) == 100; }
    if r.level == Dedicado { assert Rank(Mestre) == 3 && Floor(Mestre) == 200; }
  }

  /** More points never give a lower level or a smaller next threshold. */
  lemma LevelsAreMonotone(p: int, q: int)
    requires p <= q
    ensures Rank(GetNextLevel(p).level) <= Rank(GetNextLevel(q).level)
    ensures GetNextLevel(p).next <= GetNextLevel(q).next
  {
  }
}
