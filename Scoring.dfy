/** Score, level, cleared-line total and gravity interval, and how a row
    clear updates them. */
module Scoring {

  /** Points per clear of 0, 1, 2, 3 or 4 rows, multiplied by the level. */
  const LINE_SCORES: seq<int> := [0, 100, 300, 500, 800]
  const LINES_PER_LEVEL: int := 10
  const START_INTERVAL: int := 1000
  const MIN_INTERVAL: int := 100
  const INTERVAL_STEP: int := 50

  /** The counters the engine keeps beside the board. */
  datatype Session = Session(score: int, level: int, lines: int, dropInterval: int)

  /** `Math.max(100, 1000 - (level - 1) * 50)`: the gravity interval in
      milliseconds at a level. */
  function IntervalFor(level: int): (ms: int)
    ensures MIN_INTERVAL <= ms
    ensures level >= 1 ==> ms <= START_INTERVAL
  {
    var v := START_INTERVAL - (level - 1) * INTERVAL_STEP;
    if v > MIN_INTERVAL then v else MIN_INTERVAL
  }

  /** The relation every reachable session satisfies: the level is one more
      than the number of completed tens of lines, and the interval is the
      one that level prescribes. */
  predicate Progression(s: Session) {
    && s.score >= 0
    && s.lines >= 0
    && s.level == s.lines / LINES_PER_LEVEL + 1
    && s.dropInterval == IntervalFor(s.level)
  }

  /** The counters `startGame` resets to. */
  function StartSession(): (s: Session)
    ensures Progression(s) && s.level == 1 && s.dropInterval == START_INTERVAL
  {
    Session(0, 1, 0, START_INTERVAL)
  }

  /** The update after clearing n rows: lines grow by n, the score by the
      table entry times the level before the update, the level rises to
      the one the new line total gives (never falls), and a level rise
      recomputes the interval. Clearing nothing changes nothing. */
  function AfterClear(s: Session, n: int): (r: Session)
    requires 0 <= n < |LINE_SCORES|
    ensures n == 0 ==> r == s
    ensures n > 0 ==> r.lines == s.lines + n
    ensures n > 0 ==> r.score == s.score + LINE_SCORES[n] * s.level
    ensures n > 0 ==> r.level == Max(s.level, r.lines / LINES_PER_LEVEL + 1)
    ensures r.level >= s.level
    ensures Progression(s) ==> Progression(r)
    ensures Progression(s) ==> MIN_INTERVAL <= r.dropInterval <= s.dropInterval <= START_INTERVAL
  {
    if n > 0 then
      var lines := s.lines + n;
      var score := s.score + LINE_SCORES[n] * s.level;
      var newLevel := lines / LINES_PER_LEVEL + 1;
      if newLevel > s.level then Session(score, newLevel, lines, IntervalFor(newLevel))
      else Session(score, s.level, lines, s.dropInterval)
    else s
  }

  function Max(a: int, b: int): int {
    if a < b then b else a
  }

  /** After 10k cleared lines in total, the level is k + 1 and the interval
      is max(100, 1000 - 50k). */
  lemma LevelAfterLines(s: Session, k: int)
    requires Progression(s) && s.lines == LINES_PER_LEVEL * k
    ensures s.level == k + 1
    ensures s.dropInterval == Max(MIN_INTERVAL, START_INTERVAL - INTERVAL_STEP * k)
  {
  }
}
