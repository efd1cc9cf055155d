/** The message log under the map (`message`): a buffer of at most
    `MSG_HEIGHT` lines that drops its oldest line to make room. Lines arrive
    already wrapped to the panel width. */
module Messages {

  const PANEL_HEIGHT: nat := 7
  const MSG_HEIGHT: nat := PANEL_HEIGHT - 1

  /** The last `n` elements of `s` (all of them if there are fewer). */
  function Newest<L>(s: seq<L>, n: nat): (r: seq<L>)
    ensures |r| == if |s| <= n then |s| else n
    ensures forall i | 0 <= i < |r| :: r[i] == s[|s| - |r| + i]
  {
    if |s| <= n then s else s[|s| - n..]
  }

  /** `message`: append each line, first deleting the oldest line whenever
      the log holds exactly `MSG_HEIGHT` lines. A log already longer than
      that (which the game never builds) is never trimmed. */
  method Message<L>(log: seq<L>, lines: seq<L>) returns (r: seq<L>)
    ensures |log| <= MSG_HEIGHT ==> r == Newest(log + lines, MSG_HEIGHT)
    ensures |log| <= MSG_HEIGHT ==> |r| <= MSG_HEIGHT
    ensures |log| > MSG_HEIGHT ==> r == log + lines
  {
    r := log;
    var i := 0;
    while i < |lines|
      invariant 0 <= i <= |lines|
      invariant |log| <= MSG_HEIGHT ==> r == Newest(log + lines[..i], MSG_HEIGHT)
      invariant |log| > MSG_HEIGHT ==> r == log + lines[..i]
    {
      assert lines[..i + 1] == lines[..i] + [lines[i]];
      assert log + lines[..i + 1] == (log + lines[..i]) + [lines[i]];
      if |r| == MSG_HEIGHT {
        r := r[1..];
      }
      r := r + [lines[i]];
      i := i + 1;
    }
    assert lines[..i] == lines;
  }
}
