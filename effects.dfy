/**
 * What the program does to the outside world, recorded in order instead of performed:
 * writes and flushes on the stdout stream it is given, `time.sleep` calls, calls of the
 * per-item worker, and whole-file writes.
 */
module Effects {

  datatype Event =
    | Write(text: string)
    | Flush
    | Sleep(seconds: real)
    | Invoke(item: string)
    | WriteFile(path: string, content: string)

  /** Everything written to stdout, in order. */
  function Output(events: seq<Event>): (s: string)
    ensures |events| == 0 ==> s == ""
  {
    if |events| == 0 then ""
    else Output(events[..|events| - 1]) + (if events[|events| - 1].Write? then events[|events| - 1].text else "")
  }

  lemma OutputAppend(events: seq<Event>, more: seq<Event>)
    ensures Output(events + more) == Output(events) + Output(more)
    decreases |more|
  {
    if |more| > 0 {
      var last := more[|more| - 1];
      assert (events + more)[..|events + more| - 1] == events + more[..|more| - 1];
      OutputAppend(events, more[..|more| - 1]);
    } else {
      assert events + more == events;
    }
  }

  /** The number of `time.sleep` calls in a log. */
  function Sleeps(events: seq<Event>): nat
  {
    if |events| == 0 then 0
    else Sleeps(events[..|events| - 1]) + (if events[|events| - 1].Sleep? then 1 else 0)
  }

  lemma SleepsAppend(events: seq<Event>, more: seq<Event>)
    ensures Sleeps(events + more) == Sleeps(events) + Sleeps(more)
    decreases |more|
  {
    if |more| > 0 {
      assert (events + more)[..|events + more| - 1] == events + more[..|more| - 1];
      SleepsAppend(events, more[..|more| - 1]);
    } else {
      assert events + more == events;
    }
  }

  /** The items the worker was called with, in call order. */
  function Invoked(events: seq<Event>): seq<string>
  {
    if |events| == 0 then []
    else Invoked(events[..|events| - 1]) + (if events[|events| - 1].Invoke? then [events[|events| - 1].item] else [])
  }

  lemma InvokedAppend(events: seq<Event>, more: seq<Event>)
    ensures Invoked(events + more) == Invoked(events) + Invoked(more)
    decreases |more|
  {
    if |more| > 0 {
      assert (events + more)[..|events + more| - 1] == events + more[..|more| - 1];
      InvokedAppend(events, more[..|more| - 1]);
    } else {
      assert events + more == events;
    }
  }

  /** The number of `flush` calls in a log. */
  function Flushes(events: seq<Event>): nat
  {
    if |events| == 0 then 0
    else Flushes(events[..|events| - 1]) + (if events[|events| - 1].Flush? then 1 else 0)
  }

  lemma FlushesAppend(events: seq<Event>, more: seq<Event>)
    ensures Flushes(events + more) == Flushes(events) + Flushes(more)
    decreases |more|
  {
    if |more| > 0 {
      assert (events + more)[..|events + more| - 1] == events + more[..|more| - 1];
      FlushesAppend(events, more[..|more| - 1]);
    } else {
      assert events + more == events;
    }
  }

  /** Every whole-file write in a log, in order: the path and the content. */
  function FilesWritten(events: seq<Event>): seq<(string, string)>
  {
    if |events| == 0 then []
    else
      var last := events[|events| - 1];
      FilesWritten(events[..|events| - 1]) + (if last.WriteFile? then [(last.path, last.content)] else [])
  }

  lemma FilesWrittenAppend(events: seq<Event>, more: seq<Event>)
    ensures FilesWritten(events + more) == FilesWritten(events) + FilesWritten(more)
    decreases |more|
  {
    if |more| > 0 {
      assert (events + more)[..|events + more| - 1] == events + more[..|more| - 1];
      FilesWrittenAppend(events, more[..|more| - 1]);
    } else {
      assert events + more == events;
    }
  }

  /** What a one-event log contributes to each view. */
  lemma Single(e: Event)
    ensures Output([e]) == (if e.Write? then e.text else "")
    ensures Sleeps([e]) == (if e.Sleep? then 1 else 0)
    ensures Invoked([e]) == (if e.Invoke? then [e.item] else [])
    ensures Flushes([e]) == (if e.Flush? then 1 else 0)
  {
    assert [e][..0] == [];
  }

  /** What a two-event log contributes to each view. */
  lemma Pair(e1: Event, e2: Event)
    ensures Output([e1, e2]) == Output([e1]) + Output([e2])
    ensures Sleeps([e1, e2]) == Sleeps([e1]) + Sleeps([e2])
    ensures Invoked([e1, e2]) == Invoked([e1]) + Invoked([e2])
    ensures Flushes([e1, e2]) == Flushes([e1]) + Flushes([e2])
  {
    assert [e1, e2] == [e1] + [e2];
    OutputAppend([e1], [e2]);
    SleepsAppend([e1], [e2]);
    InvokedAppend([e1], [e2]);
    FlushesAppend([e1], [e2]);
  }

  /** Every view of a log split in three parts is the views of the parts, in order. */
  lemma Append3(a: seq<Event>, b: seq<Event>, c: seq<Event>)
    ensures Output(a + b + c) == Output(a) + Output(b) + Output(c)
    ensures Sleeps(a + b + c) == Sleeps(a) + Sleeps(b) + Sleeps(c)
    ensures Invoked(a + b + c) == Invoked(a) + Invoked(b) + Invoked(c)
    ensures Flushes(a + b + c) == Flushes(a) + Flushes(b) + Flushes(c)
  {
    OutputAppend(a + b, c);
    OutputAppend(a, b);
    SleepsAppend(a + b, c);
    SleepsAppend(a, b);
    InvokedAppend(a + b, c);
    InvokedAppend(a, b);
    FlushesAppend(a + b, c);
    FlushesAppend(a, b);
  }
}
