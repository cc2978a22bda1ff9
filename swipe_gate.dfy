/** The two swipe gates of the add-in, stated on values. Each gate is one flag
    per direction: a detected swipe while the flag is down issues one
    navigation command and raises the flag. Nothing lowers a flag again, so a
    gate fires at most once. */
module SwipeGate {

  /** The navigation commands sent to the running slide show. */
  datatype Command = Next | Previous

  /** Whether one call of a monitor issues its command: only a detected swipe
      (`mode`) while the flag is still down does. */
  predicate Fires(fired: bool, mode: bool)
  {
    !fired && mode
  }

  /** The flag after one call of a monitor. */
  function FlagAfter(fired: bool, mode: bool): (r: bool)
    ensures r == (fired || mode)
    ensures Fires(fired, mode) ==> r
    ensures !Fires(fired, mode) ==> r == fired
  {
    if Fires(fired, mode) then true else fired
  }

  /** The flag after successive calls with the given swipe signals. */
  function FlagAfterAll(fired: bool, signals: seq<bool>): (r: bool)
    ensures r == (fired || true in signals)
    decreases |signals|
  {
    if signals == [] then fired
    else
      assert signals == [signals[0]] + signals[1..];
      FlagAfterAll(FlagAfter(fired, signals[0]), signals[1..])
  }

  /** The number of commands issued by successive calls with the given swipe
      signals: at most one, exactly one when the flag starts down and some
      swipe is detected, and none once the flag is up. */
  function Issued(fired: bool, signals: seq<bool>): (n: nat)
    ensures n <= 1
    ensures n == 1 <==> !fired && true in signals
    decreases |signals|
  {
    if signals == [] then 0
    else
      assert signals == [signals[0]] + signals[1..];
      (if Fires(fired, signals[0]) then 1 else 0) + Issued(FlagAfter(fired, signals[0]), signals[1..])
  }

  /** A swipe held over several frames, released and made again issues one
      command, not one per detected frame and not one per swipe. */
  lemma HeldAndRepeatedSwipeIssuesOnce()
    ensures Issued(false, [true, true, false, true]) == 1
    ensures FlagAfterAll(false, [true, true, false, true])
  {
  }

  /** The commands issued for one direction, as counted in a command log. */
  function CountOf(log: seq<Command>, c: Command): (n: nat)
    ensures n == multiset(log)[c]
    ensures n <= |log|
    decreases |log|
  {
    if log == [] then 0
    else
      assert log == [log[0]] + log[1..];
      (if log[0] == c then 1 else 0) + CountOf(log[1..], c)
  }

  /** A command log is made of its `Next` and its `Previous` commands; with at
      most one of each it holds at most two commands. */
  lemma {:induction false} LogSize(log: seq<Command>)
    ensures |log| == CountOf(log, Next) + CountOf(log, Previous)
    decreases |log|
  {
    if log != [] {
      LogSize(log[1..]);
    }
  }
}
