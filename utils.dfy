/**
 * The shared helpers of gif_for_cli/utils.py: the memoising wrapper, the default display
 * mode read from the environment, the pool-size argument check, the cache directory
 * layout, the filtered sorted directory listing, the progress reporter and the sequential
 * branch of `pool_abstraction`.
 */
module Utils {
  import opened Wrappers
  import opened Strings
  import opened Sorting
  import opened Effects

  /**
   * `memoize(f)`: a wrapper around `f` with a dictionary `d` from argument tuples to results.
   * `calls` records each call the wrapper makes to `f`.
   */
  class Memo<A(==,!new), R> {
    const f: A -> R
    var d: map<A, R>
    ghost var calls: seq<A>

    /** The cache only holds results of `f`, and `f` was called once for each cached argument. */
    ghost predicate Valid()
      reads this
    {
      && (forall a :: a in d ==> d[a] == f(a))
      && (forall a :: a in d <==> a in calls)
      && (forall i, j :: 0 <= i < j < |calls| ==> calls[i] != calls[j])
    }

    constructor (f: A -> R)
      ensures Valid() && this.f == f
      ensures d == map[] && calls == []
    {
      this.f := f;
      d := map[];
      calls := [];
    }

    /**
     * `wrapper(*args)`: the result is always `f(args)`; a cached argument returns the stored
     * value without calling `f`, and a new one calls `f` once and caches the result.
     */
    method Call(args: A) returns (res: R)
      requires Valid()
      modifies this
      ensures Valid() && res == f(args)
      ensures old(args in d) ==> d == old(d) && calls == old(calls)
      ensures !old(args in d) ==> d == old(d)[args := res] && calls == old(calls) + [args]
    {
      if args in d {
        return d[args];
      }
      res := f(args);
      d := d[args := res];
      calls := calls + [args];
    }
  }

  /** Calling a memoised function twice with the same argument calls the function once. */
  method MemoTwice<A(==,!new), R>(f: A -> R, a: A) returns (r1: R, r2: R, ghost calls: seq<A>)
    ensures r1 == f(a) && r2 == f(a)
    ensures calls == [a]
  {
    var memo := new Memo(f);
    r1 := memo.Call(a);
    r2 := memo.Call(a);
    calls := memo.calls;
  }

  /** `environ.get(key, '')`. */
  function EnvGet(environ: map<string, string>, key: string): string {
    if key in environ then environ[key] else ""
  }

  /**
   * `_get_default_display_mode(environ)`: `truecolor` when the lower-cased `TERM` or
   * `COLORTERM` mentions truecolor, otherwise `256fgbg` when either mentions 256, otherwise
   * `nocolor`.
   */
  function DefaultDisplayMode(environ: map<string, string>): (mode: string)
    ensures mode == "truecolor" || mode == "256fgbg" || mode == "nocolor"
  {
    var term := LowerAscii(EnvGet(environ, "TERM"));
    var colorterm := LowerAscii(EnvGet(environ, "COLORTERM"));
    if Contains(term, "truecolor") || Contains(colorterm, "truecolor") then "truecolor"
    else if Contains(term, "256") || Contains(colorterm, "256") then "256fgbg"
    else "nocolor"
  }

  /** Which variable settings select which mode: truecolor first, then 256, then none. */
  lemma DefaultDisplayModeChoice(environ: map<string, string>)
    ensures var term, colorterm := LowerAscii(EnvGet(environ, "TERM")), LowerAscii(EnvGet(environ, "COLORTERM"));
      var mode := DefaultDisplayMode(environ);
      && (mode == "truecolor" <==> Contains(term, "truecolor") || Contains(colorterm, "truecolor"))
      && (mode == "256fgbg" <==>
            !(Contains(term, "truecolor") || Contains(colorterm, "truecolor"))
            && (Contains(term, "256") || Contains(colorterm, "256")))
      && (mode == "nocolor" <==>
            !(Contains(term, "truecolor") || Contains(colorterm, "truecolor"))
            && !(Contains(term, "256") || Contains(colorterm, "256")))
  {
  }

  /** With no variable set, the mode is `nocolor`. */
  lemma DefaultDisplayModeEmpty()
    ensures DefaultDisplayMode(map[]) == "nocolor"
  {
    assert LowerAscii("") == "";
    ShortNotContains("", "truecolor");
    ShortNotContains("", "256");
  }

  /** Setting `COLORTERM` to any value that mentions truecolor, in any case, selects `truecolor`. */
  lemma TruecolorWins(environ: map<string, string>, v: string)
    requires Contains(LowerAscii(v), "truecolor")
    ensures DefaultDisplayMode(environ["COLORTERM" := v]) == "truecolor"
  {
    assert EnvGet(environ["COLORTERM" := v], "COLORTERM") == v;
  }

  lemma {:induction false} ShortNotContains(s: string, t: string)
    requires |s| < |t|
    ensures !Contains(s, t)
  {
    if |s| > 0 {
      ShortNotContains(s[1..], t);
    }
  }

  /**
   * `_pool_type(val)`: no value passes through, a value that `int()` rejects is its error, a
   * value of 0 or less is rejected with `Minimum cpu_pool_size is 1`, any other value is
   * returned as an integer.
   */
  function PoolType(val: Option<string>): (r: Result<Option<int>>)
    ensures val.None? ==> r == Ok(None)
    ensures val.Some? && ParseInt(val.value).Err? ==> r == Err(ParseInt(val.value).message)
    ensures (val.Some? && ParseInt(val.value).Ok? && ParseInt(val.value).value <= 0)
              ==> r == Err("Minimum cpu_pool_size is 1")
    ensures r.Ok? && r.value.Some? ==> r.value.value >= 1 && val.Some? && ParseInt(val.value) == Ok(r.value.value)
  {
    if val.None? then Ok(None)
    else
      match ParseInt(val.value)
      case Err(e) => Err(e)
      case Ok(n) => if n <= 0 then Err("Minimum cpu_pool_size is 1") else Ok(Some(n))
  }

  /** Every positive size written in decimal is accepted as itself; `'0'` is rejected. */
  lemma PoolTypeOfDecimal(n: nat)
    ensures n >= 1 ==> PoolType(Some(NatToString(n))) == Ok(Some(n))
    ensures n == 0 ==> PoolType(Some(NatToString(n))) == Err("Minimum cpu_pool_size is 1")
  {
    ParseIntOfNatToString(n);
  }

  /** `int()` reads the value: `' 2'` and `'1_0'` are accepted as 2 and 10, `'1__0'` is its error. */
  lemma PoolTypeExamples(c: char, d: char)
    requires '1' <= c <= '9' && IsDigit(d)
    ensures PoolType(Some([' ', c])) == Ok(Some(c as int - '0' as int))
    ensures PoolType(Some([c, '_', d])) == Ok(Some(10 * (c as int - '0' as int) + (d as int - '0' as int)))
    ensures PoolType(Some([c, '_', '_', d])) == Err("invalid literal for int() with base 10: " + Repr([c, '_', '_', d]))
  {
    ParseIntSpaceDigit(c);
    ParseIntUnderscoreDigits(c, d);
    ParseIntDoubleUnderscore(c, d);
  }

  /** The per-display-mode subdirectories of the cache directory. */
  const SUBDIRS: seq<string> := ["jpg", "nocolor", "256", "256fgbg", "truecolor"]

  /** `<home>/.cache/gif-for-cli/<version>/<hash>-<cols>cols-<rows>rows-cw<cw>px-ch<ch>px`. */
  function CacheDir(homeDir: string, version: string, inputSourceHash: string,
                    cols: int, rows: int, cellWidth: int, cellHeight: int): string
  {
    homeDir + "/.cache/gif-for-cli/" + version + "/" + inputSourceHash + "-"
      + IntToString(cols) + "cols-" + IntToString(rows) + "rows-cw" + IntToString(cellWidth)
      + "px-ch" + IntToString(cellHeight) + "px"
  }

  /**
   * `get_output_dirnames(...)`: the cache directory under the key `.`, and under each
   * subdirectory key that directory plus `/<key>`; no other key.
   */
  function OutputDirnames(homeDir: string, version: string, inputSourceHash: string,
                          cols: int, rows: int, cellWidth: int, cellHeight: int): (dirs: map<string, string>)
    ensures forall k :: k in dirs <==> k == "." || k in SUBDIRS
    ensures dirs["."] == CacheDir(homeDir, version, inputSourceHash, cols, rows, cellWidth, cellHeight)
    ensures forall k :: k in SUBDIRS ==> dirs[k] == dirs["."] + "/" + k
  {
    var base := CacheDir(homeDir, version, inputSourceHash, cols, rows, cellWidth, cellHeight);
    assert "." !in SUBDIRS;
    map k | k in ["."] + SUBDIRS :: if k == "." then base else base + "/" + k
  }

  /** The five subdirectories are distinct: no two display modes share a cache directory. */
  lemma OutputDirnamesDistinct(homeDir: string, version: string, inputSourceHash: string,
                               cols: int, rows: int, cellWidth: int, cellHeight: int, k1: string, k2: string)
    requires k1 in SUBDIRS && k2 in SUBDIRS && k1 != k2
    ensures var dirs := OutputDirnames(homeDir, version, inputSourceHash, cols, rows, cellWidth, cellHeight);
      dirs[k1] != dirs[k2]
  {
    var dirs := OutputDirnames(homeDir, version, inputSourceHash, cols, rows, cellWidth, cellHeight);
    var base := dirs["."];
    assert dirs[k1][|base| + 1..] == k1;
    assert dirs[k2][|base| + 1..] == k2;
  }

  /** One entry of `os.scandir(dirname)`. */
  datatype DirEntry = DirEntry(name: string, isFile: bool)

  function EntryName(e: DirEntry): string { e.name }

  /** The entries the listing keeps: files whose name ends with `.` + `ext`. */
  predicate Keep(e: DirEntry, ext: string) {
    e.isFile && EndsWith(e.name, "." + ext)
  }

  /** The names of the kept entries, in the order given. */
  function KeptNames(entries: seq<DirEntry>, ext: string): seq<string> {
    if |entries| == 0 then []
    else
      var rest := KeptNames(entries[1..], ext);
      if Keep(entries[0], ext) then [entries[0].name] + rest else rest
  }

  /** A name is listed exactly when some kept entry carries it. */
  lemma {:induction false} KeptNamesMembers(entries: seq<DirEntry>, ext: string)
    ensures forall n :: n in KeptNames(entries, ext) <==> exists e :: e in entries && Keep(e, ext) && e.name == n
  {
    if |entries| > 0 {
      KeptNamesMembers(entries[1..], ext);
      assert forall e :: e in entries <==> e == entries[0] || e in entries[1..] by {
        assert entries == [entries[0]] + entries[1..];
      }
    }
  }

  lemma {:induction false} KeptNamesMultiset(s: seq<DirEntry>, t: seq<DirEntry>, ext: string)
    requires multiset(s) == multiset(t)
    ensures multiset(KeptNames(s, ext)) == multiset(KeptNames(t, ext))
    decreases |s|
  {
    if |s| > 0 {
      var e := s[0];
      assert e in multiset(t);
      var i :| 0 <= i < |t| && t[i] == e;
      var t' := t[..i] + t[i + 1..];
      RemoveMatching(s, t, i);
      KeptNamesMultiset(s[1..], t', ext);
      KeptNamesRemove(t, i, ext);
    }
  }

  /** Taking the same element out of two permutations of each other leaves permutations. */
  lemma RemoveMatching<T>(s: seq<T>, t: seq<T>, i: nat)
    requires multiset(s) == multiset(t) && |s| > 0 && i < |t| && t[i] == s[0]
    ensures multiset(s[1..]) == multiset(t[..i] + t[i + 1..])
  {
    assert t == t[..i] + [t[i]] + t[i + 1..];
    assert s == [s[0]] + s[1..];
    calc {
      multiset(s[1..]);
      multiset(s) - multiset{s[0]};
      multiset(t) - multiset{t[i]};
      multiset(t[..i]) + multiset(t[i + 1..]);
      multiset(t[..i] + t[i + 1..]);
    }
  }

  lemma {:induction false} KeptNamesRemove(t: seq<DirEntry>, i: nat, ext: string)
    requires i < |t|
    ensures multiset(KeptNames(t, ext))
      == multiset(KeptNames(t[..i] + t[i + 1..], ext)) + (if Keep(t[i], ext) then multiset{t[i].name} else multiset{})
    decreases i
  {
    if i > 0 {
      var u := t[..i] + t[i + 1..];
      var removed := if Keep(t[i], ext) then multiset{t[i].name} else multiset{};
      assert multiset(KeptNames(t[1..], ext)) == multiset(KeptNames(u[1..], ext)) + removed by {
        KeptNamesRemove(t[1..], i - 1, ext);
        assert t[1..][..i - 1] + t[1..][i..] == u[1..];
        assert t[1..][i - 1] == t[i];
      }
      var head := if Keep(t[0], ext) then multiset{t[0].name} else multiset{};
      assert multiset(KeptNames(t, ext)) == head + multiset(KeptNames(t[1..], ext));
      assert multiset(KeptNames(u, ext)) == head + multiset(KeptNames(u[1..], ext)) by {
        assert u[0] == t[0];
      }
    } else {
      assert t[..0] + t[1..] == t[1..];
    }
  }

  lemma {:induction false} KeptNamesSorted(s: seq<DirEntry>, ext: string)
    requires SortedBy(s, EntryName)
    ensures forall i, j :: 0 <= i < j < |KeptNames(s, ext)| ==> LexLe(KeptNames(s, ext)[i], KeptNames(s, ext)[j])
  {
    if |s| > 0 {
      assert SortedBy(s[1..], EntryName);
      KeptNamesSorted(s[1..], ext);
      var rest := KeptNames(s[1..], ext);
      KeptNamesMembers(s[1..], ext);
      forall j | 0 <= j < |rest| ensures LexLe(s[0].name, rest[j]) {
        assert rest[j] in rest;
        var e :| e in s[1..] && Keep(e, ext) && e.name == rest[j];
        var k :| 0 <= k < |s[1..]| && s[1..][k] == e;
        assert s[k + 1] == e;
      }
    }
  }

  /**
   * `get_sorted_filenames(dirname, ext)` over the entries `os.scandir` lists: the names of
   * the files ending with `.` + `ext`, each as often as listed, in ascending order.
   */
  function SortedFilenames(entries: seq<DirEntry>, ext: string): (names: seq<string>)
    ensures multiset(names) == multiset(KeptNames(entries, ext))
    ensures forall i, j :: 0 <= i < j < |names| ==> LexLe(names[i], names[j])
  {
    var sorted := SortBy(entries, EntryName);
    KeptNamesMultiset(sorted, entries, ext);
    KeptNamesSorted(sorted, ext);
    KeptNames(sorted, ext)
  }

  /** Erase the line and move the cursor back to its start. */
  const CLEAR_LINE: string := [ESC] + "[2K" + [ESC] + "[1000D"

  /** `'Processed {}/{} frames...'.format(count, total)`. */
  function ProgressMessage(count: nat, total: int): string {
    "Processed " + NatToString(count) + "/" + IntToString(total) + " frames..."
  }

  /**
   * The events of `_log_frame_progress` after `count` turns of its loop: the first turn
   * reports 0; turn `k > 0` first draws the next result from the generator, which runs
   * the work whose events are `results[k - 1]`, then clears the line and reports `k`.
   */
  function ProgressEvents(total: int, results: seq<seq<Event>>, count: nat): seq<Event>
    requires count <= |results| + 1
  {
    if count == 0 then []
    else
      ProgressEvents(total, results, count - 1)
      + (if count > 1 then results[count - 2] + [Write(CLEAR_LINE)] else [])
      + [Write(ProgressMessage(count - 1, total)), Flush]
  }

  /**
   * `_log_frame_progress(total, results, stdout)`: the generator `results` is drawn one item
   * per turn; `results[k]` are the events of computing item `k`.
   */
  method LogFrameProgress(total: int, results: seq<seq<Event>>) returns (events: seq<Event>)
    ensures events == ProgressEvents(total, results, |results| + 1) + [Write("\n")]
  {
    events := [];
    var count := 0;
    while count <= |results|
      invariant 0 <= count <= |results| + 1
      invariant events == ProgressEvents(total, results, count)
    {
      if count > 0 {
        events := events + results[count - 1];
        events := events + [Write(CLEAR_LINE)];
      }
      events := events + [Write(ProgressMessage(count, total)), Flush];
      count := count + 1;
    }
    events := events + [Write("\n")];
  }

  /** The progress messages for 0 to `n`. */
  function Messages(total: int, n: nat): (ms: seq<string>)
    ensures |ms| == n + 1
  {
    if n == 0 then [ProgressMessage(0, total)] else Messages(total, n - 1) + [ProgressMessage(n, total)]
  }

  /** The events `ProgressEvents` adds on turn `count`. */
  lemma ProgressStep(total: int, results: seq<seq<Event>>, count: nat)
    requires 1 <= count <= |results| + 1
    ensures var mid := if count > 1 then results[count - 2] + [Write(CLEAR_LINE)] else [];
      var tail := [Write(ProgressMessage(count - 1, total)), Flush];
      && ProgressEvents(total, results, count) == ProgressEvents(total, results, count - 1) + mid + tail
      && Output(tail) == ProgressMessage(count - 1, total)
      && Flushes(tail) == 1
      && Invoked(tail) == []
      && (count > 1 ==>
            && Output(mid) == Output(results[count - 2]) + CLEAR_LINE
            && Flushes(mid) == Flushes(results[count - 2])
            && Invoked(mid) == Invoked(results[count - 2]))
  {
    if count > 1 {
      OutputAppend(results[count - 2], [Write(CLEAR_LINE)]);
      FlushesAppend(results[count - 2], [Write(CLEAR_LINE)]);
      InvokedAppend(results[count - 2], [Write(CLEAR_LINE)]);
      Single(Write(CLEAR_LINE));
    }
    Pair(Write(ProgressMessage(count - 1, total)), Flush);
    Single(Write(ProgressMessage(count - 1, total)));
    Single(Flush);
  }

  /**
   * When the work writes nothing to stdout, the reporter writes the messages for 0 to `n`
   * separated by the clear-line sequence (and one newline after the loop).
   */
  lemma {:induction false} ProgressOutput(total: int, results: seq<seq<Event>>, count: nat)
    requires 1 <= count <= |results| + 1
    requires forall k :: 0 <= k < |results| ==> Output(results[k]) == ""
    ensures Output(ProgressEvents(total, results, count)) == Join(Messages(total, count - 1), CLEAR_LINE)
  {
    ProgressStep(total, results, count);
    var prev := ProgressEvents(total, results, count - 1);
    var tail := [Write(ProgressMessage(count - 1, total)), Flush];
    if count == 1 {
      assert ProgressEvents(total, results, count) == prev + tail;
      OutputAppend(prev, tail);
    } else {
      ProgressOutput(total, results, count - 1);
      var mid := results[count - 2] + [Write(CLEAR_LINE)];
      Append3(prev, mid, tail);
      var before := Join(Messages(total, count - 2), CLEAR_LINE);
      assert Output(prev) == before;
      assert Output(mid) == CLEAR_LINE;
      assert Output(tail) == ProgressMessage(count - 1, total);
      JoinAppend(Messages(total, count - 2), CLEAR_LINE, ProgressMessage(count - 1, total));
      assert Messages(total, count - 1) == Messages(total, count - 2) + [ProgressMessage(count - 1, total)];
    }
  }

  /** When the work does not flush stdout, the reporter flushes once per message. */
  lemma {:induction false} ProgressFlushes(total: int, results: seq<seq<Event>>, count: nat)
    requires 1 <= count <= |results| + 1
    requires forall k :: 0 <= k < |results| ==> Flushes(results[k]) == 0
    ensures Flushes(ProgressEvents(total, results, count)) == count
  {
    ProgressStep(total, results, count);
    var prev := ProgressEvents(total, results, count - 1);
    var tail := [Write(ProgressMessage(count - 1, total)), Flush];
    if count == 1 {
      assert ProgressEvents(total, results, count) == prev + tail;
      FlushesAppend(prev, tail);
    } else {
      ProgressFlushes(total, results, count - 1);
      var mid := results[count - 2] + [Write(CLEAR_LINE)];
      Append3(prev, mid, tail);
    }
  }

  /**
   * The sequential branch of `pool_abstraction(callable, items, 1, stdout)`: the generator
   * calls `callable` on each item as the reporter draws it, with `total = len(items)`.
   */
  method PoolAbstractionSequential(items: seq<string>) returns (events: seq<Event>)
    ensures events == ProgressEvents(|items|, CallEach(items), |items| + 1) + [Write("\n")]
    ensures Invoked(events) == items
  {
    events := LogFrameProgress(|items|, CallEach(items));
    InvokedAll(items);
  }

  /** Over the whole run, the worker is called on every item once, in item order. */
  lemma InvokedAll(items: seq<string>)
    ensures Invoked(ProgressEvents(|items|, CallEach(items), |items| + 1) + [Write("\n")]) == items
  {
    var events := ProgressEvents(|items|, CallEach(items), |items| + 1);
    InvokedProgress(|items|, items, |items| + 1);
    assert Invoked(events) == items by {
      assert items[..|items|] == items;
    }
    InvokedAppend(events, [Write("\n")]);
    Single(Write("\n"));
  }

  /** One call of the worker per item, in item order. */
  function CallEach(items: seq<string>): (rs: seq<seq<Event>>)
    ensures |rs| == |items| && forall k :: 0 <= k < |items| ==> rs[k] == [Invoke(items[k])]
  {
    seq(|items|, k requires 0 <= k < |items| => [Invoke(items[k])])
  }

  /** The worker calls `ProgressEvents` adds on turn `count`: those of the item drawn then. */
  lemma InvokedStep(total: int, results: seq<seq<Event>>, count: nat)
    requires 1 <= count <= |results| + 1
    ensures Invoked(ProgressEvents(total, results, count))
      == Invoked(ProgressEvents(total, results, count - 1)) + (if count > 1 then Invoked(results[count - 2]) else [])
  {
    ProgressStep(total, results, count);
    var prev := ProgressEvents(total, results, count - 1);
    var mid := if count > 1 then results[count - 2] + [Write(CLEAR_LINE)] else [];
    var tail := [Write(ProgressMessage(count - 1, total)), Flush];
    Append3(prev, mid, tail);
    if count == 1 {
      assert Invoked(mid) == [];
    }
  }

  /** After turn `count`, the worker has been called on the first `count - 1` items, in order. */
  lemma {:induction false} InvokedProgress(total: int, items: seq<string>, count: nat)
    requires count <= |items| + 1
    ensures Invoked(ProgressEvents(total, CallEach(items), count)) == items[..if count == 0 then 0 else count - 1]
  {
    if count == 1 {
      InvokedStep(total, CallEach(items), count);
    } else if count > 1 {
      InvokedProgress(total, items, count - 1);
      InvokedItem(total, CallEach(items), items, count);
    }
  }

  /** Turn `count > 1` calls the worker on item `count - 2` when that item's work is that one call. */
  lemma InvokedItem(total: int, results: seq<seq<Event>>, items: seq<string>, count: nat)
    requires 1 < count <= |results| + 1 && |results| == |items|
    requires results[count - 2] == [Invoke(items[count - 2])]
    requires Invoked(ProgressEvents(total, results, count - 1)) == items[..count - 2]
    ensures Invoked(ProgressEvents(total, results, count)) == items[..count - 1]
  {
    var k := count - 2;
    var after := Invoked(ProgressEvents(total, results, count));
    var before := Invoked(ProgressEvents(total, results, count - 1));
    var added := Invoked(results[k]);
    assert after == before + added by { InvokedStep(total, results, count); }
    assert added == [items[k]] by { Single(Invoke(items[k])); }
    PrefixExtend(after, before, added, items, k);
  }

  /** A log that extends the first `k` items by item `k` holds the first `k + 1` items. */
  lemma PrefixExtend<T>(after: seq<T>, before: seq<T>, added: seq<T>, s: seq<T>, k: nat)
    requires k < |s| && after == before + added && before == s[..k] && added == [s[k]]
    ensures after == s[..k + 1]
  {
    assert s[..k + 1] == s[..k] + [s[k]];
  }
}
