/**
 * The playback of gif_for_cli/display.py: `display_txt_frames` writes the frames in order,
 * moving the cursor back up over the previous frame before each one after the first,
 * sleeps after each, repeats the whole list `num_loops` times (without end for 0, not at all
 * for a negative count), and
 * resets the terminal styling at the end or on Ctrl+C; `get_txt_frames` reads the frame
 * files and puts the chosen cell character in place of the stored placeholder.
 */
module Display {
  import opened Wrappers
  import opened Strings
  import opened Effects
  import opened Utils
  import opened Export
  import opened Generate
  import CellRender

  /**
   * The two escape codes playback writes, `ANSI_RESET` and `ANSI_CURSOR_UP`; their values live
   * in gif_for_cli/constants.py, which is not part of this model.
   */
  datatype Codes = Codes(reset: string, cursorUp: string)

  /** `s * n`. */
  function Repeat(s: string, n: nat): string {
    if n == 0 then "" else Repeat(s, n - 1) + s
  }

  /** `len(frame.split('\n'))`: the number of lines a frame occupies. */
  function LineCount(frame: string): nat {
    |Split(frame, '\n')|
  }

  /** `previous_line_count` before frame `j` of pass `loops`: 0 until a frame has been shown. */
  function PreviousLineCount(frames: seq<string>, loops: nat, j: nat): nat {
    if (loops == 0 && j == 0) || |frames| == 0 then 0 else LineCount(frames[0])
  }

  /** What showing frame `j` during pass `loops` does: cursor up, the frame, a newline, flush, sleep. */
  function Show(frames: seq<string>, codes: Codes, seconds: real, loops: nat, j: nat): seq<Event>
    requires j < |frames|
  {
    [Write(Repeat(codes.cursorUp, PreviousLineCount(frames, loops, j))), Write(frames[j]), Write("\n"), Flush, Sleep(seconds)]
  }

  /** The events after `loops` whole passes over the frames and the first `j` frames of the next. */
  function Played(frames: seq<string>, codes: Codes, seconds: real, loops: nat, j: nat): seq<Event>
    requires j <= |frames|
    decreases loops, j
  {
    if j == 0 then
      if loops == 0 then [] else Played(frames, codes, seconds, loops - 1, |frames|)
    else Played(frames, codes, seconds, loops, j - 1) + Show(frames, codes, seconds, loops, j - 1)
  }

  /**
   * The passes a bounded playback makes: `remaining_loops = num_loops or None` counts down
   * while it is positive, so a negative count makes none.
   */
  function Passes(numLoops: int): nat {
    if numLoops > 0 then numLoops else 0
  }

  /**
   * Ctrl+C arrives during sleep call number `i` (counting from 0) only when the playback makes
   * that many calls: always when it loops without end, and within `num_loops * len(frames)`
   * calls otherwise.
   */
  predicate Interrupted(frames: seq<string>, numLoops: int, interrupt: Option<nat>) {
    interrupt.Some? && (numLoops == 0 || interrupt.value < Passes(numLoops) * |frames|)
  }

  /** The playback can end: it is bounded (a count other than 0), or it sleeps and is interrupted. */
  predicate Ends(frames: seq<string>, numLoops: int, interrupt: Option<nat>) {
    numLoops != 0 || (interrupt.Some? && |frames| > 0)
  }

  /**
   * Everything `display_txt_frames(txt_frames, stdout, num_loops, seconds_per_frame)` does:
   * when interrupted during sleep call `i`, the frames up to and including that call, then the
   * reset and an extra newline; otherwise `num_loops` passes (none for a negative count), then
   * the reset. A flush ends both.
   */
  function DisplayEvents(frames: seq<string>, codes: Codes, seconds: real, numLoops: int, interrupt: Option<nat>): seq<Event>
    requires Ends(frames, numLoops, interrupt)
  {
    if Interrupted(frames, numLoops, interrupt) then
      assert |frames| > 0;
      var i, n := interrupt.value, |frames|;
      Played(frames, codes, seconds, i / n, i % n) + Show(frames, codes, seconds, i / n, i % n)
        + [Write(codes.reset), Write("\n"), Flush]
    else
      Played(frames, codes, seconds, Passes(numLoops), 0) + [Write(codes.reset), Flush]
  }

  /** A negative loop count shows nothing: the playback only resets the styling and flushes. */
  lemma NegativeLoops(frames: seq<string>, codes: Codes, seconds: real, numLoops: int, interrupt: Option<nat>)
    requires numLoops < 0
    ensures DisplayEvents(frames, codes, seconds, numLoops, interrupt) == [Write(codes.reset), Flush]
  {
  }

  /** A sleep call during a pass that is not the last lies within `num_loops * n` calls. */
  lemma WithinPasses(loops: nat, n: nat, j: nat, numLoops: nat)
    requires j < n && loops < numLoops
    ensures loops * n + j < numLoops * n
  {
    assert (loops + 1) * n == loops * n + n;
    CellRender.MulMonotone(loops + 1, numLoops, n);
  }

  /**
   * `display_txt_frames(txt_frames, stdout, num_loops, seconds_per_frame)`. `interrupt` says
   * which sleep call, if any, raises `KeyboardInterrupt`.
   */
  method DisplayTxtFrames(frames: seq<string>, codes: Codes, seconds: real, numLoops: int, interrupt: Option<nat>)
    returns (events: seq<Event>)
    requires Ends(frames, numLoops, interrupt)
    ensures events == DisplayEvents(frames, codes, seconds, numLoops, interrupt)
  {
    var n := |frames|;
    var previousLineCount := 0;
    var remainingLoops: Option<int> := if numLoops == 0 then None else Some(numLoops);
    var sleeps := 0;
    ghost var loops: nat := 0;
    events := [];
    while remainingLoops.None? || remainingLoops.value > 0
      invariant remainingLoops.None? <==> numLoops == 0
      invariant remainingLoops.Some? ==> loops + remainingLoops.value == numLoops
      invariant numLoops > 0 ==> loops <= numLoops
      invariant numLoops < 0 ==> loops == 0
      invariant sleeps == loops * n
      invariant interrupt.Some? ==> sleeps <= interrupt.value
      invariant previousLineCount == PreviousLineCount(frames, loops, 0)
      invariant events == Played(frames, codes, seconds, loops, 0)
      decreases if remainingLoops.Some? then remainingLoops.value else interrupt.value + 1 - sleeps
    {
      var j := 0;
      while j < n
        invariant j <= n
        invariant sleeps == loops * n + j
        invariant interrupt.Some? ==> sleeps <= interrupt.value
        invariant previousLineCount == PreviousLineCount(frames, loops, j)
        invariant events == Played(frames, codes, seconds, loops, j)
      {
        events := events + [Write(Repeat(codes.cursorUp, previousLineCount)), Write(frames[j]), Write("\n"), Flush];
        previousLineCount := LineCount(frames[0]);
        events := events + [Sleep(seconds)];
        if interrupt == Some(sleeps) {
          ModOffset(loops, n, j);
          if numLoops > 0 {
            WithinPasses(loops, n, j, Passes(numLoops));
          }
          events := events + [Write(codes.reset), Write("\n"), Flush];
          return;
        }
        sleeps := sleeps + 1;
        j := j + 1;
      }
      if remainingLoops.Some? {
        remainingLoops := Some(remainingLoops.value - 1);
      }
      assert (loops + 1) * n == loops * n + n;
      loops := loops + 1;
    }
    events := events + [Write(codes.reset), Flush];
  }

  /** `txt_frames * loops`. */
  function Repeated(frames: seq<string>, loops: nat): (r: seq<string>)
  {
    if loops == 0 then [] else Repeated(frames, loops - 1) + frames
  }

  lemma {:induction false} RepeatedLength(frames: seq<string>, loops: nat)
    ensures |Repeated(frames, loops)| == loops * |frames|
  {
    if loops > 0 {
      RepeatedLength(frames, loops - 1);
      assert loops * |frames| == (loops - 1) * |frames| + |frames|;
    }
  }

  /** Sleep is called once per frame shown. */
  lemma {:induction false} PlayedSleeps(frames: seq<string>, codes: Codes, seconds: real, loops: nat, j: nat)
    requires j <= |frames|
    ensures Sleeps(Played(frames, codes, seconds, loops, j)) == loops * |frames| + j
    decreases loops, j
  {
    if j == 0 {
      if loops > 0 {
        PlayedSleeps(frames, codes, seconds, loops - 1, |frames|);
        assert loops * |frames| == (loops - 1) * |frames| + |frames|;
      }
    } else {
      PlayedSleeps(frames, codes, seconds, loops, j - 1);
      SleepsAppend(Played(frames, codes, seconds, loops, j - 1), Show(frames, codes, seconds, loops, j - 1));
      ShowOutput(frames, codes, seconds, loops, j - 1);
    }
  }

  /** The frames that have appeared after `loops` passes and `j` more frames. */
  function Shown(frames: seq<string>, loops: nat, j: nat): seq<string>
    requires j <= |frames|
  {
    Repeated(frames, loops) + frames[..j]
  }

  /** One `Show` writes the cursor movement, the frame and a newline, and sleeps once. */
  lemma ShowOutput(frames: seq<string>, codes: Codes, seconds: real, loops: nat, j: nat)
    requires j < |frames|
    ensures Output(Show(frames, codes, seconds, loops, j))
      == Repeat(codes.cursorUp, PreviousLineCount(frames, loops, j)) + frames[j] + "\n"
    ensures Sleeps(Show(frames, codes, seconds, loops, j)) == 1
  {
    var show := Show(frames, codes, seconds, loops, j);
    assert show[..5] == show;
    assert show[..4][..3] == show[..3] && show[..3][..2] == show[..2] && show[..2][..1] == show[..1];
    assert show[..1][..0] == [];
    assert Output(show[..1]) == show[0].text && Sleeps(show[..1]) == 0;
    assert Output(show[..2]) == show[0].text + show[1].text && Sleeps(show[..2]) == 0;
    assert Output(show[..3]) == show[0].text + show[1].text + "\n" && Sleeps(show[..3]) == 0;
    assert Output(show[..4]) == Output(show[..3]) && Sleeps(show[..4]) == 0;
  }

  /** The events after the last frame: the reset, an extra newline when interrupted, and the flush. */
  lemma EndOutput(reset: string)
    ensures Output([Write(reset), Flush]) == reset && Sleeps([Write(reset), Flush]) == 0
    ensures Output([Write(reset), Write("\n"), Flush]) == reset + "\n"
    ensures Sleeps([Write(reset), Write("\n"), Flush]) == 0
  {
    var two, three := [Write(reset), Flush], [Write(reset), Write("\n"), Flush];
    assert two[..1] == [Write(reset)] && three[..2] == [Write(reset), Write("\n")];
    assert three[..2][..1] == [Write(reset)] && [Write(reset)][..0] == [];
    assert Output([Write(reset)]) == reset && Sleeps([Write(reset)]) == 0;
    assert Output(three[..2]) == reset + "\n" && Sleeps(three[..2]) == 0;
  }

  /**
   * The text playback has written so far: the frames shown, each ended by a newline, and
   * between two frames the cursor moved up over the lines of the first frame.
   */
  lemma {:induction false} PlayedOutput(frames: seq<string>, codes: Codes, seconds: real, loops: nat, j: nat)
    requires j <= |frames| && |frames| > 0
    ensures Output(Played(frames, codes, seconds, loops, j)) == ShownText(frames, codes, loops, j)
    decreases loops, j
  {
    if j == 0 {
      if loops > 0 {
        PlayedOutput(frames, codes, seconds, loops - 1, |frames|);
        assert frames[..|frames|] == frames && frames[..0] == [];
        assert Shown(frames, loops, 0) == Shown(frames, loops - 1, |frames|);
      }
    } else {
      PlayedOutput(frames, codes, seconds, loops, j - 1);
      OutputAppend(Played(frames, codes, seconds, loops, j - 1), Show(frames, codes, seconds, loops, j - 1));
      ShowOutput(frames, codes, seconds, loops, j - 1);
      ShownTextStep(frames, codes, loops, j);
    }
  }

  /** The text of the frames shown so far, as `PlayedOutput` states it. */
  function ShownText(frames: seq<string>, codes: Codes, loops: nat, j: nat): string
    requires j <= |frames| && |frames| > 0
  {
    if loops == 0 && j == 0 then ""
    else Join(Shown(frames, loops, j), "\n" + Repeat(codes.cursorUp, LineCount(frames[0]))) + "\n"
  }

  /** Showing one more frame adds the cursor movement, the frame and a newline to the text. */
  lemma ShownTextStep(frames: seq<string>, codes: Codes, loops: nat, j: nat)
    requires 0 < j <= |frames|
    ensures ShownText(frames, codes, loops, j) == ShownText(frames, codes, loops, j - 1)
      + Repeat(codes.cursorUp, PreviousLineCount(frames, loops, j - 1)) + frames[j - 1] + "\n"
  {
    var up := Repeat(codes.cursorUp, LineCount(frames[0]));
    var before := Shown(frames, loops, j - 1);
    assert Shown(frames, loops, j) == before + [frames[j - 1]] by {
      assert frames[..j] == frames[..j - 1] + [frames[j - 1]];
    }
    if loops == 0 && j - 1 == 0 {
      assert Shown(frames, loops, j) == [frames[0]];
    } else {
      assert |before| > 0 by {
        RepeatedLength(frames, loops);
        if loops > 0 {
          assert loops * |frames| >= |frames|;
        }
      }
      JoinAppend(before, "\n" + up, frames[j - 1]);
    }
  }

  /** The output of a bounded playback that is not interrupted: the frames `num_loops` times, then the reset. */
  lemma DisplayOutput(frames: seq<string>, codes: Codes, seconds: real, numLoops: int, interrupt: Option<nat>)
    requires numLoops > 0 && |frames| > 0 && !Interrupted(frames, numLoops, interrupt)
    ensures var up := Repeat(codes.cursorUp, LineCount(frames[0]));
      Output(DisplayEvents(frames, codes, seconds, numLoops, interrupt))
      == Join(Repeated(frames, numLoops), "\n" + up) + "\n" + codes.reset
    ensures Sleeps(DisplayEvents(frames, codes, seconds, numLoops, interrupt)) == numLoops * |frames|
  {
    var played := Played(frames, codes, seconds, numLoops, 0);
    PlayedOutput(frames, codes, seconds, numLoops, 0);
    PlayedSleeps(frames, codes, seconds, numLoops, 0);
    assert Shown(frames, numLoops, 0) == Repeated(frames, numLoops) by {
      assert frames[..0] == [];
    }
    OutputAppend(played, [Write(codes.reset), Flush]);
    SleepsAppend(played, [Write(codes.reset), Flush]);
    EndOutput(codes.reset);
  }

  /**
   * The output of an interrupted playback: every frame up to the one whose sleep was
   * interrupted, then the reset and an extra newline; the interrupted sleep is the last call.
   */
  lemma InterruptOutput(frames: seq<string>, codes: Codes, seconds: real, numLoops: int, interrupt: Option<nat>)
    requires Ends(frames, numLoops, interrupt) && Interrupted(frames, numLoops, interrupt)
    ensures |frames| > 0
    ensures var up, i := Repeat(codes.cursorUp, LineCount(frames[0])), interrupt.value;
      Output(DisplayEvents(frames, codes, seconds, numLoops, interrupt))
      == Join(Shown(frames, i / |frames|, i % |frames| + 1), "\n" + up) + "\n" + codes.reset + "\n"
    ensures Sleeps(DisplayEvents(frames, codes, seconds, numLoops, interrupt)) == interrupt.value + 1
  {
    var n, i := |frames|, interrupt.value;
    var loops, j := i / n, i % n;
    var played := Played(frames, codes, seconds, loops, j + 1);
    var tail := [Write(codes.reset), Write("\n"), Flush];
    assert DisplayEvents(frames, codes, seconds, numLoops, interrupt) == played + tail;
    PlayedOutput(frames, codes, seconds, loops, j + 1);
    PlayedSleeps(frames, codes, seconds, loops, j + 1);
    assert loops * n + j == i;
    OutputAppend(played, tail);
    SleepsAppend(played, tail);
    EndOutput(codes.reset);
  }

  /**
   * `get_txt_frames(display_dirname, cell_char)`: the `.txt` files in sorted order, each read
   * with `read` and with every placeholder replaced by `cell_char`.
   */
  function GetTxtFrames(dirname: string, entries: seq<DirEntry>, read: string -> string,
                        placeholder: char, cellChar: string): (frames: seq<string>)
    ensures |frames| == |TxtFrames(dirname, entries)|
  {
    var paths := TxtFrames(dirname, entries);
    seq(|paths|, i requires 0 <= i < |paths| => Replace(read(paths[i]), placeholder, cellChar))
  }

  /**
   * Frame `i` is file `i` of the sorted listing with each placeholder swapped for the string
   * `cell_char`: the text between placeholders is kept in order, no placeholder is left unless
   * `cell_char` holds one, and a one-character `cell_char` leaves every other character where
   * it was.
   */
  lemma GetTxtFramesReplace(dirname: string, entries: seq<DirEntry>, read: string -> string,
                            placeholder: char, cellChar: string, i: nat)
    requires i < |TxtFrames(dirname, entries)|
    ensures var text, frame := read(TxtFrames(dirname, entries)[i]), GetTxtFrames(dirname, entries, read, placeholder, cellChar)[i];
      && frame == Join(Split(text, placeholder), cellChar)
      && (placeholder !in cellChar ==> placeholder !in frame)
      && (|cellChar| == 1 ==>
            && |frame| == |text|
            && forall k :: 0 <= k < |text| ==> frame[k] == if text[k] == placeholder then cellChar[0] else text[k])
  {
    var text := read(TxtFrames(dirname, entries)[i]);
    ReplaceIsJoinSplit(text, placeholder, cellChar);
    if |cellChar| == 1 {
      assert cellChar == [cellChar[0]];
      ReplaceOneChar(text, placeholder, cellChar[0]);
    }
    if placeholder !in cellChar {
      ReplaceRemovesPlaceholder(text, placeholder, cellChar);
    }
  }

  /** `display(display_dirname, stdout, num_loops, cell_char, seconds_per_frame)`. */
  method Play(dirname: string, entries: seq<DirEntry>, read: string -> string, placeholder: char, cellChar: string,
              codes: Codes, seconds: real, numLoops: int, interrupt: Option<nat>) returns (events: seq<Event>)
    requires Ends(GetTxtFrames(dirname, entries, read, placeholder, cellChar), numLoops, interrupt)
    ensures events == DisplayEvents(GetTxtFrames(dirname, entries, read, placeholder, cellChar), codes, seconds, numLoops, interrupt)
  {
    var frames := GetTxtFrames(dirname, entries, read, placeholder, cellChar);
    events := DisplayTxtFrames(frames, codes, seconds, numLoops, interrupt);
  }
}
