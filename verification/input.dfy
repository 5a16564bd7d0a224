/**
 Keyboard input as the game sees it, and the start screen that waits for the
 player to start or quit.
 */
module Input {

  datatype Option<T> = None | Some(value: T)

  /** The special keys the game reacts to; every other key is `KeyOther`. */
  datatype Key = KeyCtrlQ | KeySpace | KeyArrowRight | KeyArrowLeft | KeyOther

  /** A terminal event: a key press (special key, and the character typed, if any),
      or any other kind of event (resize, mouse, ...). */
  datatype Event = KeyEvent(key: Key, ch: char) | OtherEvent

  /** `s` or `S` starts the game. */
  predicate IsStart(e: Event) {
    e.KeyEvent? && (e.ch == 's' || e.ch == 'S')
  }

  /** Only a lower-case `q` quits from the start screen. */
  predicate IsQuit(e: Event) {
    e.KeyEvent? && e.ch == 'q'
  }

  /** How the start screen ends: still waiting after all events, or left through
      the start or the quit key at position `at` of the event stream. */
  datatype StartOutcome = Waiting | Started(at: nat) | Quit(at: nat)

  /** No event before position `n` leaves the start screen. */
  predicate Undecided(evs: seq<Event>, n: nat)
    requires n <= |evs|
  {
    forall i :: 0 <= i < n ==> !IsStart(evs[i]) && !IsQuit(evs[i])
  }

  function Later(r: StartOutcome): StartOutcome {
    match r
    case Waiting => Waiting
    case Started(i) => Started(i + 1)
    case Quit(i) => Quit(i + 1)
  }

  /** The start-screen loop over a stream of polled events: the first start or quit
      key decides, every other event is ignored. */
  function StartScreen(evs: seq<Event>): (r: StartOutcome)
    ensures r.Waiting? <==> Undecided(evs, |evs|)
    ensures r.Started? ==> r.at < |evs| && IsStart(evs[r.at]) && Undecided(evs, r.at)
    ensures r.Quit? ==> r.at < |evs| && IsQuit(evs[r.at]) && Undecided(evs, r.at)
  {
    if |evs| == 0 then Waiting
    else if IsStart(evs[0]) then Started(0)
    else if IsQuit(evs[0]) then Quit(0)
    else
      var r := Later(StartScreen(evs[1..]));
      assert forall i :: 1 <= i < |evs| ==> evs[i] == evs[1..][i - 1];
      r
  }
}
