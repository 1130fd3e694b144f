/** lib/userStats.ts and types/userStats.ts: the player's statistics record,
    the update applied after every finished or abandoned game, the daily
    streak count, and the migration of a stored record that may lack fields.

    Calendar dates are day numbers (one more per day); ISO "YYYY-MM-DD"
    strings sort in the same order, so the string sort of the source is the
    ascending sort here. Timestamps are milliseconds. */
module UserStats {
  import opened SeqUtil
  import opened GameTypes

  /** The record completeGame hands over (its ISO date string is not modelled). */
  datatype GamePerformance = GamePerformance(duration: int, moves: int, difficulty: Difficulty, gameMode: GameMode, completed: bool)

  /** The last daily completion; NoDate stands for the empty string. */
  datatype LastDate = NoDate | OnDay(day: int)

  datatype Stats = Stats(
    dailyStreak: int,
    bestStreak: int,
    dailyGamesPlayed: int,
    dailyGamesWon: int,
    lastDailyCompletion: LastDate,
    unlimitedGamesPlayed: int,
    unlimitedGamesWon: int,
    totalTimePlayed: int,
    bestCompletionTime: int,
    totalMoves: int,
    completedDates: seq<int>,
    preferredDifficulty: Difficulty,
    firstPlayDate: int)

  /** DEFAULT_USER_STATS; `now` is the load time that firstPlayDate records. */
  function DefaultStats(now: int): (r: Stats)
    ensures Sane(r)
  {
    Stats(0, 0, 0, 0, NoDate, 0, 0, 0, 0, 0, [], Easy, now)
  }

  /** What every record built by the functions below satisfies: counters are
      non-negative, no mode has more wins than games, the streak never
      exceeds the best streak, and the completed dates are sorted and
      repetition-free. */
  predicate Sane(s: Stats) {
    0 <= s.dailyGamesWon <= s.dailyGamesPlayed &&
    0 <= s.unlimitedGamesWon <= s.unlimitedGamesPlayed &&
    0 <= s.dailyStreak <= s.bestStreak &&
    s.totalTimePlayed >= 0 && s.bestCompletionTime >= 0 && s.totalMoves >= 0 &&
    Ascending(s.completedDates) && Distinct(s.completedDates)
  }

  // ---------------------------------------------------------------------
  // calculateCurrentStreak

  /** The entries of a newest-first list that continue the run of days
      expected, expected - 1, ...; the first mismatch ends the run. */
  function StreakFrom(desc: seq<int>, expected: int): (n: nat)
    ensures n <= |desc|
  {
    if desc == [] || desc[0] != expected then 0
    else 1 + StreakFrom(desc[1..], expected - 1)
  }

  /** The streak calculateCurrentStreak reports for the completed dates. */
  function Streak(dates: seq<int>, today: int): (n: nat)
    ensures n <= |dates|
    ensures today !in dates ==> n == 0
  {
    var desc := Reverse(SortAsc(dates));
    if dates == [] then 0
    else
      assert today !in dates ==> desc == [] || desc[0] != today by {
        if today !in dates && desc != [] {
          SameMultisetSameMembers(dates, SortAsc(dates), desc[0]);
        }
      }
      StreakFrom(desc, today)
  }

  /** The n days ending today are all among the dates, and the day before them is not. */
  predicate RunEndingAt(dates: seq<int>, today: int, n: nat) {
    (forall d :: today - n < d <= today ==> d in dates) && today - n !in dates
  }

  predicate StrictlyDescending(s: seq<int>) {
    forall i, j :: 0 <= i < j < |s| ==> s[i] > s[j]
  }

  lemma {:induction false} StreakFromRun(desc: seq<int>, expected: int)
    requires StrictlyDescending(desc)
    requires forall i :: 0 <= i < |desc| ==> desc[i] <= expected
    ensures RunEndingAt(desc, expected, StreakFrom(desc, expected))
  {
    if desc == [] {
    } else if desc[0] != expected {
      forall i | 0 <= i < |desc|
        ensures desc[i] != expected
      {
        assert desc[i] <= desc[0];
      }
    } else {
      var rest := desc[1..];
      forall i | 0 <= i < |rest|
        ensures rest[i] <= expected - 1
      {
        assert rest[i] == desc[i + 1] < desc[0];
      }
      StreakFromRun(rest, expected - 1);
      RunExtends(desc, expected, StreakFrom(rest, expected - 1));
    }
  }

  /** A run ending the day before the newest date extends by that date. */
  lemma RunExtends(desc: seq<int>, expected: int, m: nat)
    requires desc != [] && desc[0] == expected
    requires RunEndingAt(desc[1..], expected - 1, m)
    ensures RunEndingAt(desc, expected, m + 1)
  {
    var rest := desc[1..];
    forall d | expected - (m + 1) < d <= expected
      ensures d in desc
    {
      if d != expected {
        assert expected - 1 - m < d <= expected - 1;
        assert d in rest;
        var j :| 0 <= j < |rest| && rest[j] == d;
        assert desc[j + 1] == d;
      }
    }
  }

  /** The newest-first order holds the same dates. */
  lemma NewestFirstMembers(dates: seq<int>, x: int)
    ensures x in Reverse(SortAsc(dates)) <==> x in dates
  {
    var sorted := SortAsc(dates);
    SameMultisetSameMembers(dates, sorted, x);
    if x in sorted {
      var i :| 0 <= i < |sorted| && sorted[i] == x;
      assert Reverse(sorted)[|sorted| - 1 - i] == x;
    }
  }

  lemma ReverseDescending(s: seq<int>)
    requires Ascending(s) && Distinct(s)
    ensures StrictlyDescending(Reverse(s))
  {
    forall i, j | 0 <= i < j < |s|
      ensures Reverse(s)[i] > Reverse(s)[j]
    {
      assert s[|s| - 1 - j] <= s[|s| - 1 - i];
    }
  }

  /** The newest-first order of repetition-free dates is strictly descending. */
  lemma NewestFirstDescending(dates: seq<int>)
    requires Distinct(dates)
    ensures StrictlyDescending(Reverse(SortAsc(dates)))
  {
    SortAscSorted(dates);
    PermutationDistinct(dates, SortAsc(dates));
    ReverseDescending(SortAsc(dates));
  }

  /** When no completion is dated after today and none is recorded twice,
      the streak is the length of the run of completed days ending today. */
  lemma StreakIsRun(dates: seq<int>, today: int)
    requires Distinct(dates)
    requires forall i :: 0 <= i < |dates| ==> dates[i] <= today
    ensures RunEndingAt(dates, today, Streak(dates, today))
  {
    if dates != [] {
      var desc := Reverse(SortAsc(dates));
      NewestFirstDescending(dates);
      forall i | 0 <= i < |desc|
        ensures desc[i] <= today
      {
        NewestFirstMembers(dates, desc[i]);
      }
      StreakFromRun(desc, today);
      forall d
        ensures d in desc <==> d in dates
      {
        NewestFirstMembers(dates, d);
      }
    }
  }

  /** calculateCurrentStreak: walks the dates newest first, counting while
      each one is the day expected next. */
  method CalculateCurrentStreak(completedDates: seq<int>, today: int) returns (streak: nat)
    ensures streak == Streak(completedDates, today)
  {
    if |completedDates| == 0 {
      return 0;
    }
    var sortedDates := Reverse(SortAsc(completedDates));
    streak := 0;
    var currentDate := today;
    var i := 0;
    while i < |sortedDates|
      invariant 0 <= i <= |sortedDates| && streak == i && currentDate == today - i
      invariant StreakFrom(sortedDates, today) == streak + StreakFrom(sortedDates[i..], currentDate)
    {
      var dateStr := sortedDates[i];
      if dateStr == currentDate {
        assert sortedDates[i..][1..] == sortedDates[i + 1..];
        streak := streak + 1;
        currentDate := currentDate - 1;
      } else {
        break;
      }
      i := i + 1;
    }
  }

  // ---------------------------------------------------------------------
  // updateUserStats

  /** completedDates after a new daily completion: today is pushed and the
      list sorted again, unless today is already there. */
  function AddCompletedDate(dates: seq<int>, today: int): (r: seq<int>)
    ensures today !in dates || Ascending(dates) ==> Ascending(r)
    ensures multiset(r) == multiset(dates) + (if today in dates then multiset{} else multiset{today})
    ensures forall x :: x in r <==> x in dates || x == today
  {
    if today in dates then dates
    else
      var r := SortAsc(dates + [today]);
      SortAscSorted(dates + [today]);
      assert forall x :: x in r <==> x in dates + [today] by {
        forall x
          ensures x in r <==> x in dates + [today]
        {
          SameMultisetSameMembers(r, dates + [today], x);
        }
      }
      r
  }

  /** updateUserStats applied to the stored record `current`, with today's
      date passed in.
      - Counters: one more game in the mode played, one more win there
        exactly when the game was completed, the other mode untouched.
      - An abandoned game changes nothing else.
      - A completed game adds its time and moves; its time becomes the best
        time when there was none yet or it is faster, else the best stays.
      - A new daily completion records today once in the date list, sets the
        last completion to today, recomputes the streak and keeps the best
        streak at least the new streak; otherwise dates and streaks stay. */
  function UpdateUserStats(current: Stats, perf: GamePerformance, isNewDailyCompletion: bool, today: int): (r: Stats)
    ensures perf.gameMode == Daily ==>
              r.dailyGamesPlayed == current.dailyGamesPlayed + 1 &&
              r.dailyGamesWon == current.dailyGamesWon + (if perf.completed then 1 else 0) &&
              r.unlimitedGamesPlayed == current.unlimitedGamesPlayed &&
              r.unlimitedGamesWon == current.unlimitedGamesWon
    ensures perf.gameMode == Unlimited ==>
              r.unlimitedGamesPlayed == current.unlimitedGamesPlayed + 1 &&
              r.unlimitedGamesWon == current.unlimitedGamesWon + (if perf.completed then 1 else 0) &&
              r.dailyGamesPlayed == current.dailyGamesPlayed &&
              r.dailyGamesWon == current.dailyGamesWon
    ensures !perf.completed ==>
              r.(dailyGamesPlayed := current.dailyGamesPlayed, dailyGamesWon := current.dailyGamesWon,
                 unlimitedGamesPlayed := current.unlimitedGamesPlayed,
                 unlimitedGamesWon := current.unlimitedGamesWon) == current
    ensures perf.completed ==>
              r.totalTimePlayed == current.totalTimePlayed + perf.duration &&
              r.totalMoves == current.totalMoves + perf.moves &&
              (r.bestCompletionTime == perf.duration <==>
                 current.bestCompletionTime == 0 || perf.duration <= current.bestCompletionTime) &&
              (r.bestCompletionTime != perf.duration ==> r.bestCompletionTime == current.bestCompletionTime)
    ensures r.bestStreak >= current.bestStreak
    ensures r.preferredDifficulty == current.preferredDifficulty && r.firstPlayDate == current.firstPlayDate
    ensures perf.completed && perf.gameMode == Daily && isNewDailyCompletion ==>
              r.completedDates == AddCompletedDate(current.completedDates, today) &&
              r.lastDailyCompletion == OnDay(today) &&
              r.dailyStreak == Streak(r.completedDates, today) &&
              r.bestStreak >= r.dailyStreak
    ensures !(perf.completed && perf.gameMode == Daily && isNewDailyCompletion) ==>
              r.completedDates == current.completedDates &&
              r.lastDailyCompletion == current.lastDailyCompletion &&
              r.dailyStreak == current.dailyStreak && r.bestStreak == current.bestStreak
  {
    var counted :=
      if perf.gameMode == Daily then
        current.(dailyGamesPlayed := current.dailyGamesPlayed + 1,
                 dailyGamesWon := current.dailyGamesWon + (if perf.completed then 1 else 0))
      else
        current.(unlimitedGamesPlayed := current.unlimitedGamesPlayed + 1,
                 unlimitedGamesWon := current.unlimitedGamesWon + (if perf.completed then 1 else 0));
    if !perf.completed then counted
    else
      var timed := counted.(
        totalTimePlayed := counted.totalTimePlayed + perf.duration,
        bestCompletionTime :=
          if counted.bestCompletionTime == 0 || perf.duration < counted.bestCompletionTime then perf.duration
          else counted.bestCompletionTime,
        totalMoves := counted.totalMoves + perf.moves);
      if perf.gameMode == Daily && isNewDailyCompletion then
        var dates := AddCompletedDate(timed.completedDates, today);
        var streak := Streak(dates, today);
        timed.(completedDates := dates,
               lastDailyCompletion := OnDay(today),
               dailyStreak := streak,
               bestStreak := if streak > timed.bestStreak then streak else timed.bestStreak)
      else timed
  }

  /** The update keeps the record sane for games of non-negative duration
      and move count. */
  lemma UpdateKeepsSane(current: Stats, perf: GamePerformance, isNew: bool, today: int)
    requires Sane(current) && perf.duration >= 0 && perf.moves >= 0
    ensures Sane(UpdateUserStats(current, perf, isNew, today))
  {
    if perf.completed && perf.gameMode == Daily && isNew {
      AddCompletedDateDistinct(current.completedDates, today);
    }
  }

  /** Recording today keeps the date list repetition-free. */
  lemma AddCompletedDateDistinct(dates: seq<int>, today: int)
    requires Distinct(dates)
    ensures Distinct(AddCompletedDate(dates, today))
  {
    var r := AddCompletedDate(dates, today);
    DistinctCounts(dates);
    forall x
      ensures multiset(r)[x] <= 1
    {
      if x != today || today in dates {
        assert multiset(r)[x] == multiset(dates)[x];
      }
    }
    forall i, j | 0 <= i < j < |r|
      ensures r[i] != r[j]
    {
      TwoOccurrences(r, i, j);
    }
  }

  /** After a new daily completion where no recorded day is later than
      today, the streak is exactly the run of completed days ending today,
      so it is at least one. */
  lemma DailyStreakIsRun(current: Stats, perf: GamePerformance, today: int)
    requires Sane(current) && perf.completed && perf.gameMode == Daily && perf.duration >= 0 && perf.moves >= 0
    requires forall i :: 0 <= i < |current.completedDates| ==> current.completedDates[i] <= today
    ensures var r := UpdateUserStats(current, perf, true, today);
      RunEndingAt(r.completedDates, today, r.dailyStreak) && r.dailyStreak >= 1
  {
    var r := UpdateUserStats(current, perf, true, today);
    UpdateKeepsSane(current, perf, true, today);
    forall i | 0 <= i < |r.completedDates|
      ensures r.completedDates[i] <= today
    {
      assert r.completedDates[i] in current.completedDates || r.completedDates[i] == today;
    }
    StreakIsRun(r.completedDates, today);
    assert today in r.completedDates;
  }

  // ---------------------------------------------------------------------
  // migrateStatsIfNeeded

  /** A record as read back from storage: any field may be missing (None).
      `version` is the tag saveUserStats adds. */
  datatype Stored = Stored(
    version: Option<string>,
    dailyStreak: Option<int>,
    bestStreak: Option<int>,
    dailyGamesPlayed: Option<int>,
    dailyGamesWon: Option<int>,
    lastDailyCompletion: Option<LastDate>,
    unlimitedGamesPlayed: Option<int>,
    unlimitedGamesWon: Option<int>,
    totalTimePlayed: Option<int>,
    bestCompletionTime: Option<int>,
    totalMoves: Option<int>,
    completedDates: Option<seq<int>>,
    preferredDifficulty: Option<Difficulty>,
    firstPlayDate: Option<int>)

  const StatsVersion: string := "1.0"

  function Or<T>(o: Option<T>, default: T): T {
    if o.Some? then o.value else default
  }

  /** Every field is present. */
  predicate Complete(s: Stored) {
    s.dailyStreak.Some? && s.bestStreak.Some? && s.dailyGamesPlayed.Some? && s.dailyGamesWon.Some? &&
    s.lastDailyCompletion.Some? && s.unlimitedGamesPlayed.Some? && s.unlimitedGamesWon.Some? &&
    s.totalTimePlayed.Some? && s.bestCompletionTime.Some? && s.totalMoves.Some? &&
    s.completedDates.Some? && s.preferredDifficulty.Some? && s.firstPlayDate.Some?
  }

  /** { ...DEFAULT_USER_STATS, ...stored }: each missing field from the defaults. */
  function WithDefaults(s: Stored, defaults: Stats): (r: Stats) {
    Stats(
      Or(s.dailyStreak, defaults.dailyStreak),
      Or(s.bestStreak, defaults.bestStreak),
      Or(s.dailyGamesPlayed, defaults.dailyGamesPlayed),
      Or(s.dailyGamesWon, defaults.dailyGamesWon),
      Or(s.lastDailyCompletion, defaults.lastDailyCompletion),
      Or(s.unlimitedGamesPlayed, defaults.unlimitedGamesPlayed),
      Or(s.unlimitedGamesWon, defaults.unlimitedGamesWon),
      Or(s.totalTimePlayed, defaults.totalTimePlayed),
      Or(s.bestCompletionTime, defaults.bestCompletionTime),
      Or(s.totalMoves, defaults.totalMoves),
      Or(s.completedDates, defaults.completedDates),
      Or(s.preferredDifficulty, defaults.preferredDifficulty),
      Or(s.firstPlayDate, defaults.firstPlayDate))
  }

  /** migrateStatsIfNeeded: a record tagged with the current version is
      returned as it is; any other gets every missing field from the
      defaults (firstPlayDate from the clock) and loses its version tag. */
  function MigrateStatsIfNeeded(s: Stored, now: int): (r: Stored)
    ensures s.version == Some(StatsVersion) ==> r == s
    ensures s.version != Some(StatsVersion) ==>
              Complete(r) && r.version == None && WithDefaults(r, DefaultStats(now)) == WithDefaults(s, DefaultStats(now))
  {
    if s.version == Some(StatsVersion) then s
    else
      Stored(
        None,
        Some(Or(s.dailyStreak, 0)),
        Some(Or(s.bestStreak, 0)),
        Some(Or(s.dailyGamesPlayed, 0)),
        Some(Or(s.dailyGamesWon, 0)),
        Some(Or(s.lastDailyCompletion, NoDate)),
        Some(Or(s.unlimitedGamesPlayed, 0)),
        Some(Or(s.unlimitedGamesWon, 0)),
        Some(Or(s.totalTimePlayed, 0)),
        Some(Or(s.bestCompletionTime, 0)),
        Some(Or(s.totalMoves, 0)),
        Some(Or(s.completedDates, [])),
        Some(Or(s.preferredDifficulty, Easy)),
        Some(Or(s.firstPlayDate, now)))
  }

  /** Migrating twice is migrating once, and a present field is never overwritten. */
  lemma MigrateIdempotent(s: Stored, now: int, later: int)
    requires s.version != Some(StatsVersion)
    ensures MigrateStatsIfNeeded(MigrateStatsIfNeeded(s, now), later) == MigrateStatsIfNeeded(s, now)
    ensures Complete(s) ==> WithDefaults(MigrateStatsIfNeeded(s, now), DefaultStats(later)) ==
                            WithDefaults(s, DefaultStats(later))
  {
  }
}
