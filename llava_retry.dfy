/**
 * The per-frame retry loop of the vision-model script and the loop over the
 * frames around it. The backend's reply on each attempt and the outcome of
 * each file write are given by the environment; sleeps are counted.
 */
module LlavaRetry {
  import opened Wrappers
  import Names
  import opened LlavaValidation

  const MaxRetries: nat := 3

  /** `str(MAX_RETRIES)`: the single decimal digit of MaxRetries. */
  const MaxRetriesText: string := [('0' as int + MaxRetries) as char]

  /**
   * The outside world of the script. `respond(frame, k)` is what the backend
   * call of attempt k on `frame` ends in; `writeFails(frame)(k)` is the message
   * of the exception raised by the k-th `open(output_path, "w")` and
   * `json.dump` for `frame`, or None when that write succeeds. Writes 0 to 2
   * belong to the attempts, write 3 is the terminal-failure write.
   */
  datatype Env = Env(
    respond: (string, nat) -> Response,
    writeFails: string -> nat -> Option<string>,
    coercion: Coercion)

  /** `analyze_image(frame_path)` on attempt k: the record the backend's reply becomes. */
  function Analyser(env: Env, frame: string): nat -> Record
  {
    (k: nat) => AnalyzeImage(env.respond(frame, k), env.coercion)
  }

  /** One write of a record to the frame's output path, and how it ended. */
  datatype Write = Write(record: Record, failure: Option<string>)

  /**
   * What happened to one frame: the number of attempts made, the writes in
   * order, the sleeps, and the message of an exception that escaped.
   */
  datatype FrameRun = FrameRun(attempts: nat, writes: seq<Write>, sleeps: nat, crash: Option<string>)

  /** The record written after the last attempt failed: `f"Failed after {MAX_RETRIES} attempts: {e}"`. */
  function TerminalRecord(message: string): (r: Record)
    ensures WellFormed(r)
    ensures r[HumanCountKey] == JInt(0) && r[ConfidenceKey] == JFloat(0.0)
    ensures ErrorKey in r && r[ErrorKey] == JString("Failed after 3 attempts: " + message)
  {
    assert MaxRetriesText == "3";
    assert "Failed after " + MaxRetriesText + " attempts: " + message == "Failed after 3 attempts: " + message;
    Degraded("Failed after " + MaxRetriesText + " attempts: " + message)
  }

  /**
   * The attempts from `attempt` on, given the record each attempt analyses
   * (`analyse`, which never raises) and the outcome of each write (`fails`).
   * A successful write ends the loop. A failed write is followed by a sleep,
   * except when the terminal write of the last attempt itself fails: that
   * exception escapes the loop.
   */
  function RetryFrom(analyse: nat -> Record, fails: nat -> Option<string>, attempt: nat): (run: FrameRun)
    requires attempt < MaxRetries
    ensures attempt < run.attempts <= MaxRetries
    ensures 1 <= |run.writes| <= MaxRetries - attempt + 1
    decreases MaxRetries - attempt
  {
    var write := Write(analyse(attempt), fails(attempt));
    if write.failure.None? then
      FrameRun(attempt + 1, [write], 0, None)
    else if attempt == MaxRetries - 1 then
      var last := Write(TerminalRecord(write.failure.value), fails(MaxRetries));
      FrameRun(MaxRetries, [write, last], if last.failure.None? then 1 else 0, last.failure)
    else
      var rest := RetryFrom(analyse, fails, attempt + 1);
      rest.(writes := [write] + rest.writes, sleeps := rest.sleeps + 1)
  }

  /** A run continued after `writes` and `sleeps` already made. */
  function Resume(writes: seq<Write>, sleeps: nat, run: FrameRun): FrameRun
  {
    run.(writes := writes + run.writes, sleeps := sleeps + run.sleeps)
  }

  /** The retry loop of one frame. */
  function Retry(env: Env, frame: string): FrameRun
  {
    RetryFrom(Analyser(env, frame), env.writeFails(frame), 0)
  }

  /** The record left in the output file, unless an exception escaped. */
  function Saved(run: FrameRun): Option<Record>
  {
    if run.crash.None? && |run.writes| > 0 then Some(run.writes[|run.writes| - 1].record) else None
  }

  /** One attempt of the retry loop, in terms of its write `w`. */
  lemma RetryStep(analyse: nat -> Record, fails: nat -> Option<string>, attempt: nat, w: Write)
    requires attempt < MaxRetries
    requires w == Write(analyse(attempt), fails(attempt))
    ensures w.failure.None? ==> RetryFrom(analyse, fails, attempt) == FrameRun(attempt + 1, [w], 0, None)
    ensures w.failure.Some? && attempt == MaxRetries - 1 ==>
      var last := Write(TerminalRecord(w.failure.value), fails(MaxRetries));
      RetryFrom(analyse, fails, attempt) == FrameRun(MaxRetries, [w, last], if last.failure.None? then 1 else 0, last.failure)
    ensures w.failure.Some? && attempt < MaxRetries - 1 ==>
      RetryFrom(analyse, fails, attempt) == Resume([w], 1, RetryFrom(analyse, fails, attempt + 1))
  {
  }

  /** `for attempt in range(MAX_RETRIES)` for one frame. */
  method RunFrame(analyse: nat -> Record, fails: nat -> Option<string>) returns (run: FrameRun)
    ensures run == RetryFrom(analyse, fails, 0)
  {
    var writes: seq<Write> := [];
    var sleeps := 0;
    var attempt := 0;
    while attempt < MaxRetries
      invariant 0 <= attempt <= MaxRetries
      invariant attempt < MaxRetries ==> Resume(writes, sleeps, RetryFrom(analyse, fails, attempt)) == RetryFrom(analyse, fails, 0)
      invariant attempt == MaxRetries ==> FrameRun(MaxRetries, writes, sleeps, None) == RetryFrom(analyse, fails, 0)
    {
      var result := analyse(attempt);
      var failure := fails(attempt);
      RetryStep(analyse, fails, attempt, Write(result, failure));
      ghost var before := writes;
      writes := writes + [Write(result, failure)];
      if failure.None? {
        return FrameRun(attempt + 1, writes, sleeps, None);
      }
      if attempt == MaxRetries - 1 {
        var errorResult := TerminalRecord(failure.value);
        var terminal := fails(MaxRetries);
        assert before + [Write(result, failure), Write(errorResult, terminal)] == writes + [Write(errorResult, terminal)];
        writes := writes + [Write(errorResult, terminal)];
        if terminal.Some? {
          // the exception leaves the except block before time.sleep
          return FrameRun(MaxRetries, writes, sleeps, terminal);
        }
      } else {
        assert before + ([Write(result, failure)] + RetryFrom(analyse, fails, attempt + 1).writes)
            == writes + RetryFrom(analyse, fails, attempt + 1).writes;
      }
      sleeps := sleeps + 1;
      attempt := attempt + 1;
    }
    run := FrameRun(MaxRetries, writes, sleeps, None);
  }

  /** Every record `analyze_image` returns is well formed. */
  lemma AnalyserWellFormed(env: Env, frame: string)
    ensures forall k: nat :: WellFormed(Analyser(env, frame)(k))
  {
    forall k: nat ensures WellFormed(Analyser(env, frame)(k)) {
      var r := AnalyzeImage(env.respond(frame, k), env.coercion);
      assert Analyser(env, frame)(k) == r;
    }
  }

  /**
   * Every write but the last failed, and an escaped exception is the last
   * write's. One sleep follows every failed write except one that escapes.
   */
  lemma {:induction false} RetryFailures(analyse: nat -> Record, fails: nat -> Option<string>, attempt: nat)
    requires attempt < MaxRetries
    ensures var run := RetryFrom(analyse, fails, attempt);
      && (forall i :: 0 <= i < |run.writes| - 1 ==> run.writes[i].failure.Some?)
      && run.crash == run.writes[|run.writes| - 1].failure
      && run.sleeps == |run.writes| - 1 - (if run.crash.Some? then 1 else 0)
    decreases MaxRetries - attempt
  {
    var run := RetryFrom(analyse, fails, attempt);
    if fails(attempt).Some? && attempt < MaxRetries - 1 {
      RetryFailures(analyse, fails, attempt + 1);
      var rest := RetryFrom(analyse, fails, attempt + 1);
      assert run.writes[1..] == rest.writes;
    }
  }

  /**
   * Write k of attempt k carries that attempt's analysed record and ends as
   * the k-th file write; a further write, made only when the last attempt's
   * write failed, carries the terminal record naming that failure and ends
   * as the terminal file write.
   */
  lemma {:induction false} RetryWrites(analyse: nat -> Record, fails: nat -> Option<string>, attempt: nat)
    requires attempt < MaxRetries
    ensures var run := RetryFrom(analyse, fails, attempt);
      && (forall k :: 0 <= k < run.attempts - attempt ==>
            k < |run.writes| && run.writes[k] == Write(analyse(attempt + k), fails(attempt + k)))
      && (|run.writes| == run.attempts - attempt ||
            (run.attempts == MaxRetries && |run.writes| == MaxRetries - attempt + 1
             && fails(MaxRetries - 1).Some?
             && run.writes[MaxRetries - attempt] == Write(TerminalRecord(fails(MaxRetries - 1).value), fails(MaxRetries))))
    decreases MaxRetries - attempt
  {
    var run := RetryFrom(analyse, fails, attempt);
    if fails(attempt).Some? && attempt < MaxRetries - 1 {
      RetryWrites(analyse, fails, attempt + 1);
      var rest := RetryFrom(analyse, fails, attempt + 1);
      assert run.writes[1..] == rest.writes;
      forall k | 1 <= k < run.attempts - attempt
        ensures k < |run.writes| && run.writes[k] == Write(analyse(attempt + k), fails(attempt + k))
      {
        assert run.writes[k] == rest.writes[k - 1];
      }
    }
  }

  /** When every analysed record is well formed, so is every record written. */
  lemma {:induction false} RetryWellFormed(analyse: nat -> Record, fails: nat -> Option<string>, attempt: nat)
    requires attempt < MaxRetries
    requires forall k: nat :: WellFormed(analyse(k))
    ensures forall w :: w in RetryFrom(analyse, fails, attempt).writes ==> WellFormed(w.record)
    decreases MaxRetries - attempt
  {
    var run := RetryFrom(analyse, fails, attempt);
    if fails(attempt).Some? && attempt < MaxRetries - 1 {
      RetryWellFormed(analyse, fails, attempt + 1);
      var rest := RetryFrom(analyse, fails, attempt + 1);
      assert run.writes == [Write(analyse(attempt), fails(attempt))] + rest.writes;
    }
  }

  /** Each frame gets at most MAX_RETRIES attempts and at most one successful write, its last. */
  lemma RetryBounds(env: Env, frame: string)
    ensures var run := Retry(env, frame);
      && 1 <= run.attempts <= MaxRetries
      && 1 <= |run.writes| <= MaxRetries + 1
      && (forall i :: 0 <= i < |run.writes| - 1 ==> run.writes[i].failure.Some?)
      && (run.crash.None? <==> Saved(run).Some?)
      && (Saved(run).Some? ==> WellFormed(Saved(run).value))
      && run.sleeps <= MaxRetries
  {
    AnalyserWellFormed(env, frame);
    RetryFailures(Analyser(env, frame), env.writeFails(frame), 0);
    RetryWellFormed(Analyser(env, frame), env.writeFails(frame), 0);
  }

  /**
   * Only a failed file write causes another attempt: when the first write
   * succeeds there is one attempt and no sleep, whatever the backend did; a
   * backend failure is written as its degraded record on that first attempt.
   */
  lemma FirstWriteSucceeds(env: Env, frame: string)
    requires env.writeFails(frame)(0).None?
    ensures var run := Retry(env, frame);
      && run.attempts == 1 && run.sleeps == 0 && run.crash.None?
      && Saved(run) == Some(AnalyzeImage(env.respond(frame, 0), env.coercion))
    ensures env.respond(frame, 0).Raised? ==>
      Saved(Retry(env, frame)) == Some(Degraded(env.respond(frame, 0).message))
  {
    FailuresDegrade(env.respond(frame, 0), env.coercion);
  }

  /**
   * When the writes of all three attempts fail, the terminal record naming the
   * last write's error is written; three sleeps follow when that write
   * succeeds, and when it fails too the exception escapes after two.
   */
  lemma EveryAttemptFails(env: Env, frame: string)
    requires forall k :: 0 <= k < MaxRetries ==> env.writeFails(frame)(k).Some?
    ensures var run := Retry(env, frame);
      && run.attempts == MaxRetries
      && |run.writes| == MaxRetries + 1
      && run.writes[MaxRetries].record == TerminalRecord(env.writeFails(frame)(MaxRetries - 1).value)
      && run.crash == env.writeFails(frame)(MaxRetries)
      && run.sleeps == (if run.crash.None? then MaxRetries else MaxRetries - 1)
      && (run.crash.None? ==> Saved(run) == Some(TerminalRecord(env.writeFails(frame)(MaxRetries - 1).value)))
  {
    assert env.writeFails(frame)(0).Some? && env.writeFails(frame)(1).Some? && env.writeFails(frame)(2).Some?;
    RetryFailures(Analyser(env, frame), env.writeFails(frame), 0);
    RetryWrites(Analyser(env, frame), env.writeFails(frame), 0);
  }

  // ---------------------------------------------------------------------------
  // The loop over the frames
  // ---------------------------------------------------------------------------

  /** `os.path.join(OUTPUT_DIR, f"{os.path.splitext(frame)[0]}.json")` */
  function OutputPath(outputDir: string, frame: string): (path: string)
    ensures Names.EndsWith(path, Names.Stem(frame) + ".json")
  {
    Names.Join(outputDir, Names.Stem(frame) + ".json")
  }

  /** The output path of every frame, as a function of the frame's name. */
  function OutputPaths(outputDir: string): string -> string
  {
    (frame: string) => OutputPath(outputDir, frame)
  }

  /** The retry loop of every frame, as a function of the frame's name. */
  function Runner(env: Env): string -> FrameRun
  {
    (frame: string) => Retry(env, frame)
  }

  /**
   * A per-frame runner as the retry loop behaves: at least one write per
   * frame, and the record left behind is well formed.
   */
  ghost predicate Sound(runs: string -> FrameRun)
  {
    forall f :: |runs(f).writes| > 0 && (Saved(runs(f)).Some? ==> WellFormed(Saved(runs(f)).value))
  }

  /** The output directory's records, the sleeps so far, and an exception that ended the run. */
  datatype BatchState = BatchState(files: map<string, Record>, sleeps: nat, crash: Option<string>)

  /** One iteration of the frame loop: skip a non-image name, otherwise run the retry loop. */
  function StepFrame(runs: string -> FrameRun, outputOf: string -> string, frame: string, st: BatchState): (r: BatchState)
    ensures !Names.IsImageName(frame, true) ==> r == st
    ensures st.files.Keys <= r.files.Keys && r.files.Keys <= st.files.Keys + {outputOf(frame)}
    ensures r.sleeps == st.sleeps + (if Names.IsImageName(frame, true) then runs(frame).sleeps else 0)
  {
    if !Names.IsImageName(frame, true) then st
    else
      var run := runs(frame);
      var files := match Saved(run) case Some(r) => st.files[outputOf(frame) := r] case None => st.files;
      BatchState(files, st.sleeps + run.sleeps, run.crash)
  }

  /** The frames from index `i` on, stopping at the first escaped exception. */
  function BatchFrom(runs: string -> FrameRun, outputOf: string -> string, frames: seq<string>, i: nat, st: BatchState): (r: BatchState)
    ensures st.crash.Some? ==> r == st
    ensures st.files.Keys <= r.files.Keys && r.sleeps >= st.sleeps
    decreases |frames| - i
  {
    if i >= |frames| || st.crash.Some? then st
    else BatchFrom(runs, outputOf, frames, i + 1, StepFrame(runs, outputOf, frames[i], st))
  }

  /** The whole script over a directory listing, starting from the files already there. */
  function Batch(env: Env, outputDir: string, listing: seq<string>, existing: map<string, Record>): (r: BatchState)
    ensures existing.Keys <= r.files.Keys
  {
    BatchFrom(Runner(env), OutputPaths(outputDir), Names.Sort(listing), 0, BatchState(existing, 0, None))
  }

  /** `for frame in sorted(os.listdir(FRAMES_DIR))`. */
  method RunBatch(env: Env, outputDir: string, listing: seq<string>, existing: map<string, Record>)
    returns (st: BatchState)
    ensures st == Batch(env, outputDir, listing, existing)
  {
    var frames := Names.Sort(listing);
    st := BatchState(existing, 0, None);
    var i := 0;
    while i < |frames|
      invariant 0 <= i <= |frames|
      invariant st.crash.None?
      invariant BatchFrom(Runner(env), OutputPaths(outputDir), frames, i, st) == Batch(env, outputDir, listing, existing)
    {
      var frame := frames[i];
      BatchFromStep(Runner(env), OutputPaths(outputDir), frames, i, st);
      i := i + 1;
      if !Names.IsImageName(frame, true) {
        continue;
      }
      st := RunImage(env, outputDir, frame, st);
      if st.crash.Some? {
        return;
      }
    }
  }

  /** The body of the frame loop for an image name: the retry loop and the record it leaves. */
  method RunImage(env: Env, outputDir: string, frame: string, st: BatchState) returns (st': BatchState)
    requires Names.IsImageName(frame, true)
    ensures st' == StepFrame(Runner(env), OutputPaths(outputDir), frame, st)
  {
    var outputPath := OutputPath(outputDir, frame);
    var run := RunFrame(Analyser(env, frame), env.writeFails(frame));
    StepImage(env, outputDir, frame, st, run);
    st' := st;
    if run.crash.None? {
      st' := st'.(files := st'.files[outputPath := run.writes[|run.writes| - 1].record]);
    }
    st' := st'.(sleeps := st'.sleeps + run.sleeps, crash := run.crash);
  }

  /** The loop over the frames, one iteration at a time. */
  lemma BatchFromStep(runs: string -> FrameRun, outputOf: string -> string, frames: seq<string>, i: nat, st: BatchState)
    requires i < |frames| && st.crash.None?
    ensures BatchFrom(runs, outputOf, frames, i, st) == BatchFrom(runs, outputOf, frames, i + 1, StepFrame(runs, outputOf, frames[i], st))
    ensures StepFrame(runs, outputOf, frames[i], st).crash.Some? ==>
      BatchFrom(runs, outputOf, frames, i, st) == StepFrame(runs, outputOf, frames[i], st)
  {
  }

  /** One iteration on an image name, in terms of its frame's run. */
  lemma StepImage(env: Env, outputDir: string, frame: string, st: BatchState, run: FrameRun)
    requires Names.IsImageName(frame, true) && run == Retry(env, frame)
    ensures StepFrame(Runner(env), OutputPaths(outputDir), frame, st) == BatchState(
      if run.crash.None? then st.files[OutputPath(outputDir, frame) := run.writes[|run.writes| - 1].record] else st.files,
      st.sleeps + run.sleeps, run.crash)
  {
    assert Runner(env)(frame) == run;
    assert OutputPaths(outputDir)(frame) == OutputPath(outputDir, frame);
  }

  /** The retry loop is a sound runner. */
  lemma RunnerSound(env: Env)
    ensures Sound(Runner(env))
  {
    forall f ensures |Runner(env)(f).writes| > 0 && (Saved(Runner(env)(f)).Some? ==> WellFormed(Saved(Runner(env)(f)).value)) {
      assert Runner(env)(f) == Retry(env, f);
      RetryBounds(env, f);
    }
  }

  /** Files only gain keys, and every new key is the output path of an image name among the remaining frames. */
  lemma {:induction false} BatchKeys(runs: string -> FrameRun, outputOf: string -> string, frames: seq<string>, i: nat, st: BatchState)
    requires i <= |frames|
    ensures var r := BatchFrom(runs, outputOf, frames, i, st);
      && st.files.Keys <= r.files.Keys
      && (forall k :: k in r.files && k !in st.files ==>
            exists j :: i <= j < |frames| && Names.IsImageName(frames[j], true) && k == outputOf(frames[j]))
    decreases |frames| - i
  {
    if i < |frames| && st.crash.None? {
      var st' := StepFrame(runs, outputOf, frames[i], st);
      BatchKeys(runs, outputOf, frames, i + 1, st');
      var r := BatchFrom(runs, outputOf, frames, i + 1, st');
      forall k | k in r.files && k !in st.files
        ensures exists j :: i <= j < |frames| && Names.IsImageName(frames[j], true) && k == outputOf(frames[j])
      {
        if k !in st'.files {
          var j :| i + 1 <= j < |frames| && Names.IsImageName(frames[j], true) && k == outputOf(frames[j]);
        }
      }
    }
  }

  /** When no exception escapes, every image name among the remaining frames has its output. */
  lemma {:induction false} BatchComplete(runs: string -> FrameRun, outputOf: string -> string, frames: seq<string>, i: nat, st: BatchState)
    requires i <= |frames|
    requires Sound(runs)
    ensures var r := BatchFrom(runs, outputOf, frames, i, st);
      r.crash.None? ==> forall j :: i <= j < |frames| && Names.IsImageName(frames[j], true) ==>
        outputOf(frames[j]) in r.files
    decreases |frames| - i
  {
    if i < |frames| && st.crash.None? {
      var st' := StepFrame(runs, outputOf, frames[i], st);
      BatchComplete(runs, outputOf, frames, i + 1, st');
      BatchKeys(runs, outputOf, frames, i + 1, st');
      var r := BatchFrom(runs, outputOf, frames, i + 1, st');
      assert BatchFrom(runs, outputOf, frames, i, st) == r;
      if r.crash.None? && Names.IsImageName(frames[i], true) {
        assert |runs(frames[i]).writes| > 0;
        assert outputOf(frames[i]) in st'.files;
      }
    }
  }

  /** Only well-formed records are written. */
  lemma {:induction false} BatchWellFormed(runs: string -> FrameRun, outputOf: string -> string, frames: seq<string>, i: nat, st: BatchState)
    requires i <= |frames|
    requires Sound(runs)
    requires forall k :: k in st.files ==> WellFormed(st.files[k])
    ensures var r := BatchFrom(runs, outputOf, frames, i, st);
      forall k :: k in r.files ==> WellFormed(r.files[k])
    decreases |frames| - i
  {
    if i < |frames| && st.crash.None? {
      var st' := StepFrame(runs, outputOf, frames[i], st);
      assert Saved(runs(frames[i])).Some? ==> WellFormed(Saved(runs(frames[i])).value);
      forall k | k in st'.files ensures WellFormed(st'.files[k]) {
        if k !in st.files || (Names.IsImageName(frames[i], true) && Saved(runs(frames[i])).Some? && k == outputOf(frames[i])) {
          assert st'.files[k] == Saved(runs(frames[i])).value;
        }
      }
      BatchWellFormed(runs, outputOf, frames, i + 1, st');
      assert BatchFrom(runs, outputOf, frames, i, st) == BatchFrom(runs, outputOf, frames, i + 1, st');
    }
  }

  /**
   * Over a whole listing: the only records created are `<stem>.json` files of
   * image names (extension compared lower-cased), and when no exception
   * escapes every image name has one; records already present are kept or
   * overwritten, never removed; and every record written is well formed.
   */
  lemma BatchOutputs(env: Env, outputDir: string, listing: seq<string>, existing: map<string, Record>)
    ensures var r := Batch(env, outputDir, listing, existing);
      && existing.Keys <= r.files.Keys
      && (forall k :: k in r.files && k !in existing ==>
            exists f :: f in listing && Names.IsImageName(f, true) && k == OutputPath(outputDir, f))
      && (r.crash.None? ==> forall f :: f in listing && Names.IsImageName(f, true) ==> OutputPath(outputDir, f) in r.files)
      && ((forall k :: k in existing ==> WellFormed(existing[k])) ==> forall k :: k in r.files ==> WellFormed(r.files[k]))
  {
    BatchCreated(env, outputDir, listing, existing);
    BatchCovers(env, outputDir, listing, existing);
    if forall k :: k in existing ==> WellFormed(existing[k]) {
      BatchKeepsWellFormed(env, outputDir, listing, existing);
    }
  }

  /** Over a whole listing, when the records already present are well formed, so is every record afterwards. */
  lemma BatchKeepsWellFormed(env: Env, outputDir: string, listing: seq<string>, existing: map<string, Record>)
    requires forall k :: k in existing ==> WellFormed(existing[k])
    ensures var r := Batch(env, outputDir, listing, existing);
      forall k :: k in r.files ==> WellFormed(r.files[k])
  {
    var st := BatchState(existing, 0, None);
    RunnerSound(env);
    assert forall k :: k in st.files ==> WellFormed(st.files[k]);
    BatchWellFormed(Runner(env), OutputPaths(outputDir), Names.Sort(listing), 0, st);
    assert Batch(env, outputDir, listing, existing) == BatchFrom(Runner(env), OutputPaths(outputDir), Names.Sort(listing), 0, st);
  }

  /** Over a whole listing, the only records created are `<stem>.json` files of image names. */
  lemma BatchCreated(env: Env, outputDir: string, listing: seq<string>, existing: map<string, Record>)
    ensures var r := Batch(env, outputDir, listing, existing);
      forall k :: k in r.files && k !in existing ==>
        exists f :: f in listing && Names.IsImageName(f, true) && k == OutputPath(outputDir, f)
  {
    var frames := Names.Sort(listing);
    BatchKeys(Runner(env), OutputPaths(outputDir), frames, 0, BatchState(existing, 0, None));
    var r := Batch(env, outputDir, listing, existing);
    forall k | k in r.files && k !in existing
      ensures exists f :: f in listing && Names.IsImageName(f, true) && k == OutputPath(outputDir, f)
    {
      var j :| 0 <= j < |frames| && Names.IsImageName(frames[j], true) && k == OutputPaths(outputDir)(frames[j]);
      assert frames[j] in multiset(listing);
    }
  }

  /** Over a whole listing, when no exception escapes, every image name has its `<stem>.json` file. */
  lemma BatchCovers(env: Env, outputDir: string, listing: seq<string>, existing: map<string, Record>)
    ensures var r := Batch(env, outputDir, listing, existing);
      r.crash.None? ==> forall f :: f in listing && Names.IsImageName(f, true) ==> OutputPath(outputDir, f) in r.files
  {
    var frames := Names.Sort(listing);
    RunnerSound(env);
    BatchComplete(Runner(env), OutputPaths(outputDir), frames, 0, BatchState(existing, 0, None));
    var r := Batch(env, outputDir, listing, existing);
    if r.crash.None? {
      forall f | f in listing && Names.IsImageName(f, true) ensures OutputPath(outputDir, f) in r.files {
        assert f in multiset(frames);
        var j :| 0 <= j < |frames| && frames[j] == f;
        assert OutputPaths(outputDir)(frames[j]) == OutputPath(outputDir, f);
      }
    }
  }

  /** When no frame's retry loop lets an exception escape, neither does the frame loop. */
  lemma {:induction false} BatchNoCrash(runs: string -> FrameRun, outputOf: string -> string, frames: seq<string>, i: nat, st: BatchState)
    requires st.crash.None?
    requires forall j :: i <= j < |frames| ==> runs(frames[j]).crash.None?
    ensures BatchFrom(runs, outputOf, frames, i, st).crash.None?
    decreases |frames| - i
  {
    if i < |frames| {
      BatchNoCrash(runs, outputOf, frames, i + 1, StepFrame(runs, outputOf, frames[i], st));
    }
  }

  // ---------------------------------------------------------------------------
  // The frame loop as the file is indented
  // ---------------------------------------------------------------------------

  /** The NameError raised by reading the undefined name `frames`. */
  const FramesUndefined := "name 'frames' is not defined"

  /**
   * One iteration of the frame loop as written: the statement
   * `for frame_name in tqdm(frames)` is indented into the body of
   * `for frame in ...`, so after an image name's retry loop the body goes on
   * to read `frames`, which is not defined, and raises NameError, unless an
   * exception has already escaped.
   */
  function StepFrameAsWritten(runs: string -> FrameRun, outputOf: string -> string, frame: string, st: BatchState): (r: BatchState)
    ensures Names.IsImageName(frame, true) ==> r.crash.Some?
    ensures !Names.IsImageName(frame, true) ==> r == st
    ensures r.files == StepFrame(runs, outputOf, frame, st).files
  {
    var next := StepFrame(runs, outputOf, frame, st);
    if Names.IsImageName(frame, true) && next.crash.None? then next.(crash := Some(FramesUndefined)) else next
  }

  /** The frames from index `i` on, as written. */
  function BatchFromAsWritten(runs: string -> FrameRun, outputOf: string -> string, frames: seq<string>, i: nat, st: BatchState): (r: BatchState)
    ensures st.crash.Some? ==> r == st
    ensures st.files.Keys <= r.files.Keys
    decreases |frames| - i
  {
    if i >= |frames| || st.crash.Some? then st
    else BatchFromAsWritten(runs, outputOf, frames, i + 1, StepFrameAsWritten(runs, outputOf, frames[i], st))
  }

  /** The whole script as written, over a directory listing. */
  function BatchAsWritten(env: Env, outputDir: string, listing: seq<string>, existing: map<string, Record>): (r: BatchState)
    ensures existing.Keys <= r.files.Keys
  {
    BatchFromAsWritten(Runner(env), OutputPaths(outputDir), Names.Sort(listing), 0, BatchState(existing, 0, None))
  }

  /** Index `j` holds the first image name at or after index `i`. */
  ghost predicate FirstImage(frames: seq<string>, i: int, j: int)
  {
    && 0 <= i <= j < |frames| && Names.IsImageName(frames[j], true)
    && forall m :: i <= m < j ==> !Names.IsImageName(frames[m], true)
  }

  /** As written, the frame loop ends with an exception iff some image name is left. */
  lemma {:induction false} AsWrittenCrashes(runs: string -> FrameRun, outputOf: string -> string, frames: seq<string>, i: nat, st: BatchState)
    requires i <= |frames| && st.crash.None?
    ensures BatchFromAsWritten(runs, outputOf, frames, i, st).crash.Some? <==>
      exists j :: i <= j < |frames| && Names.IsImageName(frames[j], true)
    decreases |frames| - i
  {
    if i < |frames| && !Names.IsImageName(frames[i], true) {
      AsWrittenCrashes(runs, outputOf, frames, i + 1, st);
      if j :| i <= j < |frames| && Names.IsImageName(frames[j], true) {
        assert i + 1 <= j;
      }
    }
  }

  /** As written, the only record the frame loop can add is that of the first image name left. */
  lemma {:induction false} AsWrittenStopsAtFirstImage(runs: string -> FrameRun, outputOf: string -> string, frames: seq<string>, i: nat, st: BatchState)
    requires i <= |frames| && st.crash.None?
    ensures var r := BatchFromAsWritten(runs, outputOf, frames, i, st);
      && st.files.Keys <= r.files.Keys
      && (forall k :: k in r.files && k !in st.files ==> exists j :: FirstImage(frames, i, j) && k == outputOf(frames[j]))
    decreases |frames| - i
  {
    if i < |frames| {
      var r := BatchFromAsWritten(runs, outputOf, frames, i, st);
      if Names.IsImageName(frames[i], true) {
        var st' := StepFrameAsWritten(runs, outputOf, frames[i], st);
        assert r == st';
        assert FirstImage(frames, i, i);
      } else {
        AsWrittenStopsAtFirstImage(runs, outputOf, frames, i + 1, st);
        assert r == BatchFromAsWritten(runs, outputOf, frames, i + 1, st);
        forall k | k in r.files && k !in st.files
          ensures exists j :: FirstImage(frames, i, j) && k == outputOf(frames[j])
        {
          var j :| FirstImage(frames, i + 1, j) && k == outputOf(frames[j]);
          assert FirstImage(frames, i, j);
        }
      }
    }
  }

  /** Sorting two names puts one of them first. */
  lemma SortedPairHead(a: string, b: string)
    ensures |Names.Sort([a, b])| == 2
    ensures Names.Sort([a, b])[0] == a || Names.Sort([a, b])[0] == b
  {
    var frames := Names.Sort([a, b]);
    assert |multiset(frames)| == |multiset([a, b])|;
    assert frames[0] in multiset([a, b]);
  }

  /**
   * As written, when the first frame is an image name whose retry loop ends
   * normally, the run ends with NameError having written only that frame's
   * output, so of two distinct outputs at least one is missing.
   */
  lemma AsWrittenFirstImageOnly(runs: string -> FrameRun, outputOf: string -> string, frames: seq<string>, x: string, y: string)
    requires |frames| > 0 && Names.IsImageName(frames[0], true) && runs(frames[0]).crash.None?
    requires (frames[0] == x || frames[0] == y) && outputOf(x) != outputOf(y)
    ensures var r := BatchFromAsWritten(runs, outputOf, frames, 0, BatchState(map[], 0, None));
      r.crash == Some(FramesUndefined) && !(outputOf(x) in r.files && outputOf(y) in r.files)
  {
    var st := BatchState(map[], 0, None);
    assert BatchFromAsWritten(runs, outputOf, frames, 0, st) == StepFrameAsWritten(runs, outputOf, frames[0], st);
  }

  /** A frame whose first write succeeds lets no exception escape. */
  lemma FirstWriteNoCrash(env: Env, frame: string)
    requires env.writeFails(frame)(0).None?
    ensures Runner(env)(frame).crash.None?
  {
    assert Runner(env)(frame) == RetryFrom(Analyser(env, frame), env.writeFails(frame), 0);
  }

  /**
   * Two image names whose first writes succeed: as written, the script ends
   * with NameError after the first of them in sorted order, and one of the
   * two records is never written.
   */
  lemma AsWrittenMissesAnImage(env: Env, outputDir: string, a: string, b: string)
    requires Names.IsImageName(a, true) && Names.IsImageName(b, true)
    requires OutputPath(outputDir, a) != OutputPath(outputDir, b)
    requires env.writeFails(a)(0).None? && env.writeFails(b)(0).None?
    ensures var r := BatchAsWritten(env, outputDir, [a, b], map[]);
      r.crash == Some(FramesUndefined) && !(OutputPath(outputDir, a) in r.files && OutputPath(outputDir, b) in r.files)
  {
    SortedPairHead(a, b);
    FirstWriteNoCrash(env, a);
    FirstWriteNoCrash(env, b);
    assert OutputPaths(outputDir)(a) == OutputPath(outputDir, a);
    assert OutputPaths(outputDir)(b) == OutputPath(outputDir, b);
    AsWrittenFirstImageOnly(Runner(env), OutputPaths(outputDir), Names.Sort([a, b]), a, b);
  }

  /**
   * The same two image names: the frame loop without the stray fragment ends
   * normally and writes both records.
   */
  lemma IntendedWritesBoth(env: Env, outputDir: string, a: string, b: string)
    requires Names.IsImageName(a, true) && Names.IsImageName(b, true)
    requires env.writeFails(a)(0).None? && env.writeFails(b)(0).None?
    ensures var r := Batch(env, outputDir, [a, b], map[]);
      r.crash.None? && OutputPath(outputDir, a) in r.files && OutputPath(outputDir, b) in r.files
  {
    var frames := Names.Sort([a, b]);
    FirstWriteSucceeds(env, a);
    FirstWriteSucceeds(env, b);
    forall j | 0 <= j < |frames| ensures Runner(env)(frames[j]).crash.None? {
      assert frames[j] in multiset([a, b]);
      assert Runner(env)(frames[j]) == Retry(env, frames[j]);
    }
    BatchNoCrash(Runner(env), OutputPaths(outputDir), frames, 0, BatchState(map[], 0, None));
    BatchOutputs(env, outputDir, [a, b], map[]);
  }
}
