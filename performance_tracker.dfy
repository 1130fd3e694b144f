/** lib/performanceTracker.ts: the tracker that counts a game's moves and
    times it. The clock (Date.now) is the parameter `now`, in milliseconds. */
module PerformanceTracker {
  import opened GameTypes
  import opened UserStats

  // ---------------------------------------------------------------------
  // Number formatting used by getFormattedDuration.

  function DigitChar(d: int): (c: char)
    requires 0 <= d < 10
    ensures '0' <= c <= '9' && c as int - '0' as int == d
  {
    ('0' as int + d) as char
  }

  predicate AllDigits(s: string) {
    forall i :: 0 <= i < |s| ==> '0' <= s[i] <= '9'
  }

  /** Number.prototype.toString for a non-negative integer: its decimal
      digits, without leading zeros. */
  function Decimal(n: nat): (s: string)
    ensures 1 <= |s| && AllDigits(s)
    ensures n < 10 <==> |s| == 1
  {
    if n < 10 then [DigitChar(n)] else Decimal(n / 10) + [DigitChar(n % 10)]
  }

  /** The value of a string of decimal digits. */
  function DecimalValue(s: string): int
    requires AllDigits(s)
  {
    if s == [] then 0 else 10 * DecimalValue(s[..|s| - 1]) + (s[|s| - 1] as int - '0' as int)
  }

  /** Reading the digits back gives the number. */
  lemma {:induction false} DecimalRoundTrip(n: nat)
    ensures DecimalValue(Decimal(n)) == n
  {
    if n >= 10 {
      DecimalRoundTrip(n / 10);
      var s := Decimal(n);
      assert s[..|s| - 1] == Decimal(n / 10);
    }
  }

  /** Number.prototype.toString for any integer. */
  function IntToString(n: int): string {
    if n < 0 then "-" + Decimal(-n) else Decimal(n)
  }

  /** padStart(2, '0'). */
  function PadStart2(s: string): (r: string)
    ensures |s| >= 2 ==> r == s
    ensures |s| < 2 ==> |r| == 2 && r[2 - |s|..] == s && forall i :: 0 <= i < 2 - |s| ==> r[i] == '0'
  {
    if |s| >= 2 then s else seq(2 - |s|, _ => '0') + s
  }

  /** getFormattedDuration's text for a duration d: "<m>:<ss>" from one
      minute on, "<s>s" below it, where s is d in whole seconds rounded
      down. The remainder is taken only for a positive minute count, where
      JavaScript's % and Dafny's % agree. */
  function FormatDuration(d: int): (r: string)
    ensures |r| >= 2
    ensures r[|r| - 1] == 's' <==> d < 60000
  {
    var seconds := d / 1000;
    var minutes := seconds / 60;
    var remainingSeconds := seconds % 60;
    assert minutes > 0 <==> d >= 60000;
    if minutes > 0 then
      var tail := PadStart2(IntToString(remainingSeconds));
      assert tail[|tail| - 1] != 's';
      IntToString(minutes) + ":" + tail
    else IntToString(seconds) + "s"
  }

  /** The number of seconds a formatted duration shows, or None when the text
      has neither form. */
  function ShownSeconds(f: string): Option<int> {
    if |f| >= 2 && f[|f| - 1] == 's' && AllDigits(f[..|f| - 1]) then
      Some(DecimalValue(f[..|f| - 1]))
    else if |f| >= 4 && f[|f| - 3] == ':' && AllDigits(f[..|f| - 3]) && AllDigits(f[|f| - 2..]) then
      Some(60 * DecimalValue(f[..|f| - 3]) + DecimalValue(f[|f| - 2..]))
    else None
  }

  lemma SecondsForm(digits: string)
    requires 1 <= |digits| && AllDigits(digits)
    ensures ShownSeconds(digits + "s") == Some(DecimalValue(digits))
    ensures (digits + "s")[|digits|] == 's'
  {
    assert (digits + "s")[..|digits|] == digits;
  }

  lemma MinutesForm(head: string, tail: string)
    requires 1 <= |head| && AllDigits(head) && |tail| == 2 && AllDigits(tail)
    ensures ShownSeconds(head + ":" + tail) == Some(60 * DecimalValue(head) + DecimalValue(tail))
    ensures (head + ":" + tail)[|head| + 2] != 's'
  {
    MinutesParts(head, tail);
    MinutesShape(head + ":" + tail);
  }

  lemma MinutesParts(head: string, tail: string)
    requires |tail| == 2
    ensures var f := head + ":" + tail;
      |f| == |head| + 3 && f[..|f| - 3] == head && f[|f| - 2..] == tail &&
      f[|f| - 3] == ':' && f[|f| - 1] == tail[1] && f[|head| + 2] == tail[1]
  {
  }

  lemma MinutesShape(f: string)
    requires |f| >= 4 && f[|f| - 3] == ':' && '0' <= f[|f| - 1] <= '9'
    requires AllDigits(f[..|f| - 3]) && AllDigits(f[|f| - 2..])
    ensures ShownSeconds(f) == Some(60 * DecimalValue(f[..|f| - 3]) + DecimalValue(f[|f| - 2..]))
  {
  }

  /** Seconds under a minute padded to two digits read back as themselves. */
  lemma PaddedSeconds(r: nat)
    requires r < 60
    ensures |PadStart2(Decimal(r))| == 2 && AllDigits(PadStart2(Decimal(r)))
    ensures DecimalValue(PadStart2(Decimal(r))) == r
  {
    DecimalRoundTrip(r);
    var t := PadStart2(Decimal(r));
    if r < 10 {
      assert t == ['0', DigitChar(r)];
      assert t[..1] == ['0'];
    }
  }

  /** A non-negative duration is shown as its whole seconds: under a minute
      as "<s>s", from a minute on as minutes and two-digit seconds. */
  lemma FormatDurationReadsBack(d: int)
    requires d >= 0
    ensures ShownSeconds(FormatDuration(d)) == Some(d / 1000)
    ensures FormatDuration(d)[|FormatDuration(d)| - 1] == 's' <==> d < 60000
  {
    var seconds := d / 1000;
    var f := FormatDuration(d);
    assert seconds / 60 > 0 <==> d >= 60000;
    if seconds / 60 > 0 {
      var m, r := seconds / 60, seconds % 60;
      assert seconds == 60 * m + r;
      var head, tail := Decimal(m), PadStart2(Decimal(r));
      assert f == head + ":" + tail;
      DecimalRoundTrip(m);
      PaddedSeconds(r);
      MinutesForm(head, tail);
      assert |f| - 1 == |head| + 2;
    } else {
      var head := Decimal(seconds);
      assert f == head + "s";
      DecimalRoundTrip(seconds);
      SecondsForm(head);
    }
  }

  // ---------------------------------------------------------------------
  // The tracker

  class GamePerformanceTracker {
    var startTime: int
    var moveCount: nat
    var gameMode: GameMode
    var difficulty: Difficulty
    var isTracking: bool

    constructor ()
      ensures startTime == 0 && moveCount == 0 && gameMode == Unlimited && difficulty == Easy && !isTracking
    {
      startTime := 0;
      moveCount := 0;
      gameMode := Unlimited;
      difficulty := Easy;
      isTracking := false;
    }

    /** startGame: a new game starts now with no moves. */
    method StartGame(gameMode: GameMode, difficulty: Difficulty, now: int)
      modifies this
      ensures startTime == now && moveCount == 0 && isTracking
      ensures this.gameMode == gameMode && this.difficulty == difficulty
    {
      startTime := now;
      moveCount := 0;
      this.gameMode := gameMode;
      this.difficulty := difficulty;
      isTracking := true;
    }

    /** trackMove: one more move, while tracking only. */
    method TrackMove()
      modifies this
      ensures old(isTracking) ==> moveCount == old(moveCount) + 1
      ensures !old(isTracking) ==> moveCount == old(moveCount)
      ensures isTracking == old(isTracking) && startTime == old(startTime)
      ensures gameMode == old(gameMode) && difficulty == old(difficulty)
    {
      if !isTracking {
        return;
      }
      moveCount := moveCount + 1;
    }

    /** resetMoves: back to no moves, while tracking only. */
    method ResetMoves()
      modifies this
      ensures moveCount == if old(isTracking) then 0 else old(moveCount)
      ensures isTracking == old(isTracking) && startTime == old(startTime)
      ensures gameMode == old(gameMode) && difficulty == old(difficulty)
    {
      if !isTracking {
        return;
      }
      moveCount := 0;
    }

    /** completeGame: the game's record (duration 0 when not tracking); the
        tracker stops, keeping its move count. */
    method CompleteGame(completed: bool, now: int) returns (performance: GamePerformance)
      modifies this
      ensures performance.duration == (if old(isTracking) then now - old(startTime) else 0)
      ensures performance.moves == old(moveCount) && performance.completed == completed
      ensures performance.gameMode == gameMode && performance.difficulty == difficulty
      ensures !isTracking && moveCount == old(moveCount) && startTime == old(startTime)
      ensures gameMode == old(gameMode) && difficulty == old(difficulty)
    {
      var endTime := now;
      var duration := if isTracking then endTime - startTime else 0;
      performance := GamePerformance(duration, moveCount, difficulty, gameMode, completed);
      isTracking := false;
    }

    /** stopTracking: clears the tracking flag only. */
    method StopTracking()
      modifies this
      ensures !isTracking && moveCount == old(moveCount) && startTime == old(startTime)
      ensures gameMode == old(gameMode) && difficulty == old(difficulty)
    {
      isTracking := false;
    }

    /** getCurrentDuration: time since the start while tracking, else 0. */
    function CurrentDuration(now: int): (d: int)
      reads this
      ensures !isTracking ==> d == 0
      ensures isTracking && now >= startTime ==> d >= 0
      ensures isTracking ==> startTime + d == now
    {
      if !isTracking then 0 else now - startTime
    }

    /** getFormattedDuration. */
    function FormattedDuration(now: int): (r: string)
      reads this
      ensures !isTracking ==> r == "0s"
      ensures now >= startTime ==> ShownSeconds(r) == Some(CurrentDuration(now) / 1000)
    {
      var d := CurrentDuration(now);
      FormatDurationReadsBack(if d >= 0 then d else 0);
      FormatDuration(d)
    }
  }
}
