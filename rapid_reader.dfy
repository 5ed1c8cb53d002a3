/**
 * The playback engine of the reader (the `useRapidReader` hook) as a class.
 *
 * React's state setters become field assignments, performed in the order the
 * source issues them. The effect that owns the interval becomes the explicit
 * method `SyncTimer`, which a host calls after each operation (React runs it
 * after the render that an operation causes); like React, it re-runs only when
 * one of its dependencies `[isPlaying, wpm, words.length]` changed, and it
 * runs the previous run's cleanup first. The interval callback is `Tick`.
 * The browser's table of live intervals is the ghost set `live`.
 */
module RapidReader {
  import opened Wrappers
  import opened TextProcessor
  import opened Arith

  /** The values the interval effect depends on. */
  datatype EffectDeps = EffectDeps(playing: bool, wpm: int, wordCount: nat)

  /** The speed `setWpm` stores: `Math.max(50, Math.min(1000, v))`. */
  function ClampWpm(v: int): (r: int)
    ensures 50 <= r <= 1000
    ensures 50 <= v <= 1000 ==> r == v
    ensures v < 50 ==> r == 50
    ensures v > 1000 ==> r == 1000
  {
    Max(50, Min(1000, v))
  }

  /** Clamping twice is clamping once, and clamping keeps the order of speeds. */
  lemma ClampWpmLaws(u: int, v: int)
    ensures ClampWpm(ClampWpm(u)) == ClampWpm(u)
    ensures u <= v ==> ClampWpm(u) <= ClampWpm(v)
  {
  }

  /** Inputs of the engine, as a host delivers them one at a time. */
  datatype Action =
    | SetText(text: string)
    | Play
    | Pause
    | Restart
    | SetWpm(value: int)
    | GoToWord(index: int)
    | Tick

  /** The session record the hook exposes to the UI. */
  datatype ReaderState = ReaderState(words: seq<string>, currentIndex: int, isPlaying: bool, wpm: int)

  /** The index is 0 or addresses a word, and playback never runs without words. */
  predicate IndexInv(s: ReaderState) {
    && 0 <= s.currentIndex && (s.currentIndex == 0 || s.currentIndex < |s.words|)
    && (s.isPlaying ==> |s.words| > 0)
  }

  /** The transport state machine on the exposed record: what each input does
      to words, index, play flag and speed. */
  function Next(s: ReaderState, a: Action): ReaderState {
    match a
    case SetText(text) => s.(words := SplitIntoWords(text), currentIndex := 0, isPlaying := false)
    case Play =>
      if s.words == [] then s
      else s.(currentIndex := if s.currentIndex >= |s.words| then 0 else s.currentIndex, isPlaying := true)
    case Pause => s.(isPlaying := false)
    case Restart => s.(currentIndex := 0, isPlaying := false)
    case SetWpm(v) => s.(wpm := ClampWpm(v))
    case GoToWord(i) => if 0 <= i < |s.words| then s.(currentIndex := i) else s
    case Tick =>
      if s.currentIndex >= |s.words| - 1 then s.(isPlaying := false)
      else s.(currentIndex := s.currentIndex + 1)
  }

  /** The inputs `acts`, one after another. */
  function Run(s: ReaderState, acts: seq<Action>): ReaderState
    decreases |acts|
  {
    if acts == [] then s else Run(Next(s, acts[0]), acts[1..])
  }

  function Ticks(n: nat): (acts: seq<Action>)
    ensures |acts| == n && forall i :: 0 <= i < n ==> acts[i] == Tick
  {
    if n == 0 then [] else [Tick] + Ticks(n - 1)
  }

  /** Every input keeps the index invariant and never leaves playback running without words. */
  lemma NextKeepsIndexInv(s: ReaderState, a: Action)
    requires IndexInv(s)
    ensures IndexInv(Next(s, a))
  {
  }

  /** Only `SetWpm` touches the speed; only `SetText` touches the words; `GoToWord`
      leaves the play flag alone. */
  lemma NextFrames(s: ReaderState, a: Action)
    ensures !a.SetWpm? ==> Next(s, a).wpm == s.wpm
    ensures !a.SetText? ==> Next(s, a).words == s.words
    ensures a.GoToWord? ==> Next(s, a).isPlaying == s.isPlaying
  {
  }

  /** Pausing twice is pausing once; so is restarting. */
  lemma PauseRestartIdempotent(s: ReaderState)
    ensures Next(Next(s, Pause), Pause) == Next(s, Pause)
    ensures Next(Next(s, Restart), Restart) == Next(s, Restart)
  {
  }

  /** Playing from word `i` of `n`, after `n - 1 - i` ticks the last word is
      shown, and the tick after that stops playback there: `n - i` ticks in all. */
  lemma {:induction false} TicksPlayToEnd(s: ReaderState)
    requires s.isPlaying && 0 <= s.currentIndex < |s.words|
    ensures Run(s, Ticks(|s.words| - s.currentIndex))
         == s.(currentIndex := |s.words| - 1, isPlaying := false)
    decreases |s.words| - s.currentIndex
  {
    var n := |s.words| - s.currentIndex;
    var ts := Ticks(n);
    assert ts[0] == Tick && ts[1..] == Ticks(n - 1);
    if s.currentIndex == |s.words| - 1 {
      assert ts[1..] == [];
    } else {
      TicksPlayToEnd(Next(s, Tick));
    }
  }

  /** The three-word example: from index 0, three ticks end on index 2, stopped. */
  lemma ThreeTicks(w: seq<string>, wpm: int)
    requires |w| == 3
    ensures Run(ReaderState(w, 0, true, wpm), [Tick, Tick, Tick]) == ReaderState(w, 2, false, wpm)
  {
    TicksPlayToEnd(ReaderState(w, 0, true, wpm));
    assert Ticks(3) == [Tick, Tick, Tick];
  }

  class Reader {
    var words: seq<string>
    var currentIndex: int
    var isPlaying: bool
    var wpm: int

    /** `intervalRef.current`: the handle of the interval the engine holds, or null. */
    var intervalRef: Option<nat>
    /** Period and captured `words.length` of the interval the last effect run armed. */
    var timerDelay: Delay
    var timerWordCount: nat
    /** Dependencies of the last effect run (None before the first run). */
    var lastDeps: Option<EffectDeps>
    /** Whether the last effect run armed an interval and so registered a cleanup. */
    var cleanupPending: bool

    /** The handles of the browser's live intervals, and the next fresh handle. */
    ghost var live: set<nat>
    var nextHandle: nat

    /** The engine's invariant. Since `live` holds at most the handle in
        `intervalRef`, at most one interval is ever outstanding. */
    ghost predicate Valid()
      reads this
    {
      IndexValid() && TimerValid() && ArmedValid()
    }

    /** The index is 0 or addresses a word, and playback never runs without words. */
    ghost predicate IndexValid()
      reads this
    {
      IndexInv(View())
    }

    /** Exactly the interval held in `intervalRef` is live. */
    ghost predicate TimerValid()
      reads this
    {
      && live == (if intervalRef.Some? then {intervalRef.value} else {})
      && (intervalRef.Some? ==> intervalRef.value < nextHandle)
    }

    /** An interval is held only while playing a non-empty text whose length its
        callback captured, and only with a cleanup registered. */
    ghost predicate ArmedValid()
      reads this
    {
      intervalRef.Some? ==>
        cleanupPending && isPlaying && |words| > 0 && timerWordCount == |words|
    }

    /** The record the hook returns. */
    function View(): ReaderState
      reads this
    {
      ReaderState(words, currentIndex, isPlaying, wpm)
    }

    function Deps(): EffectDeps
      reads this
    {
      EffectDeps(isPlaying, wpm, |words|)
    }

    /** The state right after the effect has run: an interval is armed exactly
        while playing a non-empty text, with the period of the current speed. */
    ghost predicate Settled()
      reads this
    {
      && lastDeps == Some(Deps())
      && (intervalRef.Some? <==> isPlaying && |words| > 0)
      && (intervalRef.Some? ==> timerDelay == WpmToDelay(wpm))
    }

    predicate WpmInRange()
      reads this
    {
      50 <= wpm <= 1000
    }

    /** `useRapidReader(initialWpm)` and its first render's effect run. The initial
        speed is stored as given, not clamped. */
    constructor (initialWpm: int)
      ensures Valid() && Settled()
      ensures words == [] && currentIndex == 0 && !isPlaying && wpm == initialWpm
      ensures intervalRef.None? && live == {}
      ensures WpmInRange() <==> 50 <= initialWpm <= 1000
    {
      words, currentIndex, isPlaying, wpm := [], 0, false, initialWpm;
      intervalRef, timerDelay, timerWordCount := None, Infinite, 0;
      live, nextHandle := {}, 0;
      lastDeps, cleanupPending := Some(EffectDeps(false, initialWpm, 0)), false;
    }

    /** `clearTimer`: cancel the held interval, if any, and forget its handle. */
    method ClearTimer()
      requires TimerValid()
      modifies this`intervalRef, this`live
      ensures TimerValid()
      ensures intervalRef.None? && live == {}
    {
      if intervalRef.Some? {
        live := live - {intervalRef.value};   // clearInterval
        intervalRef := None;
      }
    }

    /** `setText`: cancel the interval, load the words of `text`, rewind and stop. */
    method SetText(text: string)
      requires Valid()
      modifies this`intervalRef, this`live, this`words, this`currentIndex, this`isPlaying
      ensures Valid()
      ensures words == SplitIntoWords(text) && currentIndex == 0 && !isPlaying
      ensures intervalRef.None? && live == {}
    {
      ClearTimer();
      words := SplitIntoWords(text);
      currentIndex := 0;
      isPlaying := false;
    }

    /** `play`: nothing without words; otherwise rewind if at or past the end, and play. */
    method Play()
      modifies this`currentIndex, this`isPlaying
      ensures old(Valid()) ==> Valid()
      ensures words == [] ==> currentIndex == old(currentIndex) && isPlaying == old(isPlaying)
      ensures words != [] ==>
        && isPlaying
        && currentIndex == (if old(currentIndex) >= |words| then 0 else old(currentIndex))
    {
      if |words| == 0 {
        return;
      }
      if currentIndex >= |words| {
        currentIndex := 0;
      }
      isPlaying := true;
    }

    /** `pause`: stop and cancel the interval. */
    method Pause()
      requires Valid()
      modifies this`isPlaying, this`intervalRef, this`live
      ensures Valid()
      ensures !isPlaying && intervalRef.None? && live == {}
    {
      isPlaying := false;
      ClearTimer();
    }

    /** `restart`: cancel the interval, rewind and stop. */
    method Restart()
      requires Valid()
      modifies this`intervalRef, this`live, this`currentIndex, this`isPlaying
      ensures Valid()
      ensures currentIndex == 0 && !isPlaying && intervalRef.None? && live == {}
    {
      ClearTimer();
      currentIndex := 0;
      isPlaying := false;
    }

    /** `setWpm`: store the speed clamped into 50..1000. */
    method SetWpm(value: int)
      requires Valid()
      modifies this`wpm
      ensures Valid()
      ensures wpm == ClampWpm(value) && WpmInRange()
    {
      wpm := ClampWpm(value);
    }

    /** `goToWord`: move to `index` if it addresses a word, otherwise ignore it. */
    method GoToWord(index: int)
      requires Valid()
      modifies this`currentIndex
      ensures Valid()
      ensures currentIndex == if 0 <= index < |words| then index else old(currentIndex)
    {
      if index >= 0 && index < |words| {
        currentIndex := index;
      }
    }

    /** `window.setInterval`: a fresh handle becomes live and the ref holds it; the
        callback captures the text length. A handle the ref held before is overwritten. */
    method ArmInterval(delay: Delay)
      requires TimerValid()
      modifies this`live, this`intervalRef, this`nextHandle, this`timerDelay, this`timerWordCount
      ensures live == old(live) + {old(nextHandle)} && nextHandle == old(nextHandle) + 1
      ensures intervalRef == Some(old(nextHandle))
      ensures timerDelay == delay && timerWordCount == |words|
    {
      live := live + {nextHandle};
      intervalRef := Some(nextHandle);
      nextHandle := nextHandle + 1;
      timerDelay, timerWordCount := delay, |words|;
    }

    /** The interval effect: when a dependency changed since its last run, run
        that run's cleanup, then arm a fresh interval if playing a non-empty text.
        The cleanup leaves no interval behind, so arming never leaks one. */
    method SyncTimer()
      requires Valid()
      modifies this`intervalRef, this`live, this`nextHandle, this`timerDelay,
               this`timerWordCount, this`cleanupPending, this`lastDeps
      ensures Valid()
      ensures lastDeps == Some(Deps())
      ensures |live| <= 1
      ensures old(lastDeps) == Some(Deps()) ==>
        && intervalRef == old(intervalRef) && live == old(live)
        && timerDelay == old(timerDelay) && cleanupPending == old(cleanupPending)
        && nextHandle == old(nextHandle) && timerWordCount == old(timerWordCount)
      ensures old(lastDeps) != Some(Deps()) ==>
        && (intervalRef.Some? <==> isPlaying && |words| > 0)
        && cleanupPending == intervalRef.Some?
        && (intervalRef.Some? ==> timerDelay == WpmToDelay(wpm))
    {
      if lastDeps != Some(Deps()) {
        RerunEffect();
      }
    }

    /** One run of the effect after a dependency changed: the previous run's
        cleanup, then a fresh interval when playing a non-empty text. */
    method RerunEffect()
      requires Valid()
      modifies this`intervalRef, this`live, this`nextHandle, this`timerDelay,
               this`timerWordCount, this`cleanupPending, this`lastDeps
      ensures Valid()
      ensures lastDeps == Some(Deps())
      ensures |live| <= 1
      ensures intervalRef.Some? <==> isPlaying && |words| > 0
      ensures cleanupPending == intervalRef.Some?
      ensures intervalRef.Some? ==> timerDelay == WpmToDelay(wpm)
    {
      ghost var view := View();
      if cleanupPending {
        ClearTimer();
      }
      if isPlaying && |words| > 0 {
        assert intervalRef.None? && live == {};
        ArmInterval(WpmToDelay(wpm));
        cleanupPending := true;
      } else {
        cleanupPending := false;
      }
      lastDeps := Some(EffectDeps(isPlaying, wpm, |words|));
      assert View() == view;
    }

    /** The interval callback: at or past the last word it stops and cancels the
        interval, leaving the index; otherwise it advances by one word. */
    method Tick()
      requires Valid() && intervalRef.Some?
      modifies this`currentIndex, this`isPlaying, this`intervalRef, this`live
      ensures Valid()
      ensures old(currentIndex) >= |words| - 1 ==>
        && currentIndex == old(currentIndex) && !isPlaying && intervalRef.None? && live == {}
      ensures old(currentIndex) < |words| - 1 ==>
        && currentIndex == old(currentIndex) + 1 && isPlaying
        && intervalRef == old(intervalRef) && live == old(live)
    {
      if currentIndex >= timerWordCount - 1 {
        isPlaying := false;
        ClearTimer();
      } else {
        currentIndex := currentIndex + 1;
      }
    }

    /** One input followed by the effect run it causes. From a settled state the
        engine is settled again: after every input an interval is armed exactly
        while playing a non-empty text, with the current speed's period. */
    method Dispatch(a: Action)
      requires Valid() && Settled()
      requires a.Tick? ==> intervalRef.Some?
      modifies this`words, this`currentIndex, this`isPlaying, this`wpm, this`intervalRef,
               this`live, this`nextHandle, this`timerDelay, this`timerWordCount,
               this`cleanupPending, this`lastDeps
      ensures Valid() && Settled()
      ensures View() == Next(old(View()), a)
      ensures |live| <= 1
    {
      match a {
        case SetText(text) => SetText(text);
        case Play => Play();
        case Pause => Pause();
        case Restart => Restart();
        case SetWpm(v) => SetWpm(v);
        case GoToWord(i) => GoToWord(i);
        case Tick => Tick();
      }
      SyncTimer();
    }
  }

  /** While a text is loaded the index always addresses a word, so the rewind
      in `play` (for an index at or past the end) never fires. */
  lemma PlayRewindUnreachable(s: ReaderState)
    requires IndexInv(s) && |s.words| > 0
    ensures 0 <= s.currentIndex < |s.words|
  {
  }

  /** Any three-word text played from the start: three interval ticks later the
      engine rests on the last word, index 2 (not 3), and holds no interval. */
  method PlayThreeWords(text: string) returns (index: int, playing: bool, armed: bool)
    requires |SplitIntoWords(text)| == 3
    ensures index == 2 && !playing && !armed
  {
    var r := new Reader(300);
    r.Dispatch(SetText(text));
    r.Dispatch(Play);
    r.Dispatch(Tick);
    r.Dispatch(Tick);
    r.Dispatch(Tick);
    index, playing, armed := r.currentIndex, r.isPlaying, r.intervalRef.Some?;
  }

  /** "a b c" is such a text. */
  lemma ThreeWords()
    ensures |SplitIntoWords("a b c")| == 3
  {
    SplitIntoWordsIsWords("a b c");
    assert !IsWhitespace('a') && !IsWhitespace('b') && !IsWhitespace('c') && IsWhitespace(' ');
    assert "a b c"[1..] == " b c" && " b c"[1..] == "b c" && "b c"[1..] == " c";
    assert " c"[1..] == "c" && "c"[1..] == "";
    assert TrimStart("") == "" && TakeWord("") == "";
    assert TakeWord(" c") == [] && TakeWord("a b c") == "a";
    assert TakeWord(" b c") == [] && TakeWord("b c") == "b";
    assert TrimStart("c") == "c" && TakeWord("c") == "c";
    assert TrimStart(" b c") == "b c" && TrimStart(" c") == "c";
    assert Words("") == [];
    assert Words("c") == ["c"];
    assert Words(" c") == ["c"];
    assert Words("b c") == ["b", "c"];
    assert Words(" b c") == ["b", "c"];
    assert Words("a b c") == ["a", "b", "c"];
  }
}
