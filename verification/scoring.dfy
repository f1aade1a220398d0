/** Score, level and fall speed (script.js clearRows, the statistics part). */
module Scoring {

  /** Base points for clearing 0, 1, 2, 3 or 4 rows at once. */
  const POINTS: seq<nat> := [0, 100, 300, 500, 800]

  /** Start values: level 1, a fall interval of 1000 ms. */
  const START_LEVEL: nat := 1
  const START_INTERVAL: nat := 1000

  datatype Stats = Stats(score: nat, level: nat, lines: nat, dropInterval: nat)

  /** `Math.floor(lines / 10) + 1`: one level per ten cleared rows. */
  function LevelFor(lines: nat): (level: nat)
    ensures level >= 1
    ensures 10 * (level - 1) <= lines < 10 * level
  {
    lines / 10 + 1
  }

  /** `Math.max(1000 - (level - 1) * 100, 100)`, in milliseconds. */
  function IntervalFor(level: nat): (interval: nat)
    ensures interval >= 100 && interval >= 1100 - 100 * level
    ensures interval == 100 || interval == 1100 - 100 * level
  {
    var raw := 1000 - (level - 1) * 100;
    if raw > 100 then raw else 100
  }

  /** Level and fall interval agree with the cleared-row count. */
  predicate Consistent(st: Stats) {
    st.level == LevelFor(st.lines) && st.dropInterval == IntervalFor(st.level)
  }

  /** The statistics of a new game. */
  function StartStats(): (st: Stats)
    ensures Consistent(st) && st.score == 0 && st.lines == 0
  {
    Stats(0, START_LEVEL, 0, START_INTERVAL)
  }

  /** The update at the end of `clearRows` after n rows were removed. Points
      are scaled by the level in force BEFORE this clear; the level and the
      fall interval are recomputed afterwards. Nothing changes when n is 0.
      More than four rows would index past the points table. */
  function ApplyClear(st: Stats, n: nat): (r: Stats)
    requires n <= 4
    ensures n == 0 ==> r == st
    ensures n > 0 ==> r.lines == st.lines + n
    ensures n > 0 ==> r.score == st.score + POINTS[n] * st.level
    ensures n > 0 ==> Consistent(r)
  {
    if n == 0 then st
    else
      var lines := st.lines + n;
      var score := st.score + POINTS[n] * st.level;
      var level := LevelFor(lines);
      Stats(score, level, lines, IntervalFor(level))
  }

  /** Clearing 1, 2, 3 or 4 rows at level L awards exactly 100L, 300L, 500L
      or 800L points, the cleared-row count grows by the same n, and a
      consistent record stays consistent. */
  lemma ScoreTable(st: Stats, n: nat)
    requires 1 <= n <= 4 && Consistent(st)
    ensures ApplyClear(st, n).score - st.score ==
      (if n == 1 then 100 else if n == 2 then 300 else if n == 3 then 500 else 800) * st.level
    ensures Consistent(ApplyClear(st, n))
    ensures ApplyClear(st, n).level >= st.level
  {
  }

  /** The level never falls and the fall interval never grows as the
      cleared-row count grows; the interval never goes below 100 ms and
      reaches it from level 10 on. */
  lemma SpeedMonotone(lines1: nat, lines2: nat)
    requires lines1 <= lines2
    ensures LevelFor(lines1) <= LevelFor(lines2)
    ensures IntervalFor(LevelFor(lines1)) >= IntervalFor(LevelFor(lines2)) >= 100
    ensures LevelFor(lines2) >= 10 ==> IntervalFor(LevelFor(lines2)) == 100
  {
  }

  /** Clearing the tenth row at level 1 scores 100 points, not the 200 the
      new level 2 would give. */
  lemma ScoreUsesOldLevel()
    ensures ApplyClear(Stats(0, 1, 9, 1000), 1) == Stats(100, 2, 10, 900)
  {
  }
}
