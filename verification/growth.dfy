/** The tree's growth state and the step that credits a finished focus session
    (the completion branch of the countdown in src/script.js). */
module Growth {
  import opened Wrappers

  /** Minutes needed to pass each stage: Seed, Seedling, Sapling, Tree. */
  const StageProgress: seq<nat> := [30, 60, 120, 15]

  /** Stage icons; the fifth entry repeats the Seed icon so that the preview
      after the Tree stage shows the seed the next cycle starts from. */
  const LevelIcons: seq<string> :=
    ["\U{1F330}", "\U{1F331}", "\U{1F33F}", "\U{1F333}", "\U{1F330}"]

  /** The level reached one past the Tree stage, where a cycle completes. */
  const CycleLevel: int := 4

  /** Minutes that make up one full cycle from Seed to past Tree. */
  const CycleMinutes: nat := 225

  /** The persisted counters. Nothing bounds them at the type level: a stored
      record may hold anything, and `Valid` says what the program maintains. */
  datatype GrowthState = GrowthState(treeLevel: int, progressMinutes: int, treeCount: int)

  const Fresh: GrowthState := GrowthState(0, 0, 0)

  predicate ValidLevel(level: int) {
    0 <= level < |StageProgress|
  }

  predicate Valid(s: GrowthState) {
    ValidLevel(s.treeLevel) && s.progressMinutes >= 0 && s.treeCount >= 0
  }

  /** `stageProgress[level]`; outside the table the lookup yields nothing
      (JavaScript's `undefined`). */
  function Threshold(level: int): (t: Option<nat>)
    ensures t.Some? <==> ValidLevel(level)
    ensures t.Some? ==> t.value > 0
  {
    if ValidLevel(level) then Some(StageProgress[level]) else None
  }

  /** Credit a completed session of `d` minutes: add them, and when the sum
      reaches the current stage's threshold move up one level and subtract
      that threshold, once. Moving past the Tree stage completes a cycle:
      the tree count grows and level and progress restart at zero. With no
      threshold for the level, `sum >= undefined` is false in the source,
      so only the minutes are added. */
  function Complete(s: GrowthState, d: nat): (r: GrowthState)
    // below the threshold: only the minutes change
    ensures ValidLevel(s.treeLevel) && s.progressMinutes + d < StageProgress[s.treeLevel]
            ==> r == s.(progressMinutes := s.progressMinutes + d)
    // reaching the threshold below the Tree stage: one level up, one threshold spent
    ensures ValidLevel(s.treeLevel) && s.treeLevel < 3
            && s.progressMinutes + d >= StageProgress[s.treeLevel]
            ==> r.treeLevel == s.treeLevel + 1
                && r.progressMinutes == s.progressMinutes + d - StageProgress[s.treeLevel]
                && r.treeCount == s.treeCount
    // reaching the Tree stage's threshold: the cycle completes
    ensures s.treeLevel == 3 && s.progressMinutes + d >= StageProgress[3]
            ==> r == GrowthState(0, 0, s.treeCount + 1)
    // the level changes by at most one step, or wraps to zero
    ensures r.treeLevel == s.treeLevel || r.treeLevel == s.treeLevel + 1 || r.treeLevel == 0
    ensures r.treeCount == s.treeCount || r.treeCount == s.treeCount + 1
    ensures Valid(s) ==> Valid(r)
    // no threshold for the level: only the minutes change
    ensures !ValidLevel(s.treeLevel) ==> r == s.(progressMinutes := s.progressMinutes + d)
  {
    var sum := s.progressMinutes + d;
    match Threshold(s.treeLevel)
    case None => s.(progressMinutes := sum)
    case Some(t) =>
      if sum < t then s.(progressMinutes := sum)
      else if s.treeLevel + 1 == CycleLevel then GrowthState(0, 0, s.treeCount + 1)
      else GrowthState(s.treeLevel + 1, sum - t, s.treeCount)
  }

  /** Sum of the thresholds of the stages strictly below `level`. */
  function StagesBelow(level: int): (m: nat)
    requires 0 <= level <= |StageProgress|
    decreases level
  {
    if level == 0 then 0 else StagesBelow(level - 1) + StageProgress[level - 1]
  }

  /** How far into the current cycle a state is, counted in minutes: the
      thresholds of the stages already passed plus the progress in this one. */
  function MinutesIntoCycle(s: GrowthState): int
    requires ValidLevel(s.treeLevel)
  {
    StagesBelow(s.treeLevel) + s.progressMinutes
  }

  /** Completion credits exactly `d` minutes to the position in the cycle,
      unless it completes the cycle; that happens exactly when the Tree
      stage's threshold is reached, and then the minutes past the end of the
      cycle are dropped. */
  lemma CompleteCreditsMinutes(s: GrowthState, d: nat)
    requires ValidLevel(s.treeLevel)
    ensures var r := Complete(s, d);
            if s.treeLevel == 3 && s.progressMinutes + d >= StageProgress[3] then
              r == GrowthState(0, 0, s.treeCount + 1)
              && MinutesIntoCycle(s) + d >= CycleMinutes
            else
              r.treeCount == s.treeCount
              && MinutesIntoCycle(r) == MinutesIntoCycle(s) + d
  {
  }

  /** The stage invariant "progress stays below the current threshold" is kept
      by a completion whose duration does not exceed the threshold of the
      stage it may move into; the single-step rollover gives no more. */
  lemma CompleteKeepsBelowThreshold(s: GrowthState, d: nat)
    requires Valid(s) && s.progressMinutes < StageProgress[s.treeLevel]
    requires s.treeLevel == 3 || d <= StageProgress[s.treeLevel + 1]
    ensures var r := Complete(s, d);
            Valid(r) && r.progressMinutes < StageProgress[r.treeLevel]
  {
  }

  /** A 120-minute session from a fresh tree passes the Seed stage and leaves
      90 minutes in the Seedling stage, whose threshold is only 60: the stage
      invariant is not kept for long sessions. */
  lemma LongSessionOvershoots()
    ensures Complete(Fresh, 120) == GrowthState(1, 90, 0)
    ensures Complete(Fresh, 120).progressMinutes >= StageProgress[1]
  {
  }

  /** Two sessions that exactly fill the Seed and Seedling stages. */
  lemma SeedToSapling()
    ensures Complete(Fresh, 30) == GrowthState(1, 0, 0)
    ensures Complete(Complete(Fresh, 30), 60) == GrowthState(2, 0, 0)
  {
  }

  /** Filling the Tree stage completes the third tree. */
  lemma TreeCompletesCycle()
    ensures Complete(GrowthState(3, 0, 2), 15) == GrowthState(0, 0, 3)
  {
  }

  /** Index of the "next stage" preview icon: one past the current level,
      clamped to the last entry of the icon table. */
  function NextIconIndex(level: int): (i: int)
    ensures level >= -1 ==> 0 <= i < |LevelIcons|
    ensures level < |LevelIcons| - 1 ==> i == level + 1
    ensures level >= |LevelIcons| - 1 ==> i == |LevelIcons| - 1
  {
    if level + 1 < |LevelIcons| - 1 then level + 1 else |LevelIcons| - 1
  }

  /** The preview shows the icon of the level a stage-passing completion
      leads to: the next stage, or the Seed after the Tree stage. */
  lemma PreviewMatchesCompletion(s: GrowthState, d: nat)
    requires ValidLevel(s.treeLevel)
    requires s.progressMinutes + d >= StageProgress[s.treeLevel]
    ensures LevelIcons[NextIconIndex(s.treeLevel)] == LevelIcons[Complete(s, d).treeLevel]
  {
  }
}
