/**
 * One run of the frame pipeline: the game record is checked and parsed, the
 * frames are either rendered into a new temp folder or taken from the folder
 * already there, and the encoder is started with a frame rate that spreads
 * the frames over the desired duration.
 *
 * The renderer, the pause and the folder creation act on the world outside
 * the process; a run records them, in order, in a log of effects.
 */
module Pipeline {
  import opened FrameNaming
  import opened Diagnostics
  import opened Rates

  /** A pause is taken before every frame whose index is a non-zero multiple of this. */
  const ThrottleEvery: nat := 1000
  /** The length of each pause, in milliseconds. */
  const ThrottleMillis: nat := 2000

  /** What a run does outside the process, in the order it does it. */
  datatype Effect =
    | CreateFolder(path: string)
    | Pause(millis: nat)
    | Render(position: string, path: string)

  /** A pause precedes the frame with index `i`. */
  predicate Throttled(i: nat)
    ensures Throttled(i) ==> ThrottleEvery <= i
  {
    i != 0 && i % ThrottleEvery == 0
  }

  /** The effects of producing frame `i` from `position`: an optional pause, then the render. */
  function FrameStep(dir: string, i: nat, position: string): (step: seq<Effect>)
    ensures |step| == if Throttled(i) then 2 else 1
    ensures step[|step| - 1] == Render(position, FramePath(dir, i))
    ensures Throttled(i) ==> step[0] == Pause(ThrottleMillis)
  {
    (if Throttled(i) then [Pause(ThrottleMillis)] else []) + [Render(position, FramePath(dir, i))]
  }

  /** The effects of producing the frames of `history`, one step per position, in play order. */
  function ProduceTrace(dir: string, history: seq<string>): (trace: seq<Effect>)
    decreases |history|
  {
    if history == [] then []
    else ProduceTrace(dir, history[..|history| - 1]) + FrameStep(dir, |history| - 1, history[|history| - 1])
  }

  /** The number of pauses taken while producing `n` frames. */
  function PausesFor(n: nat): (pauses: nat)
    ensures n == 0 || pauses < n
  {
    if n == 0 then 0 else (n - 1) / ThrottleEvery
  }

  /** The pauses among `t`. */
  function Pauses(t: seq<Effect>): (count: nat)
    ensures count <= |t|
    decreases |t|
  {
    if t == [] then 0 else Pauses(t[..|t| - 1]) + (if t[|t| - 1].Pause? then 1 else 0)
  }

  /** The renders among `t`, in order. */
  function Renders(t: seq<Effect>): (renders: seq<Effect>)
    ensures |renders| <= |t|
    ensures forall k :: 0 <= k < |renders| ==> renders[k].Render?
    decreases |t|
  {
    if t == [] then [] else Renders(t[..|t| - 1]) + (if t[|t| - 1].Render? then [t[|t| - 1]] else [])
  }

  /** The paths the renders among `t` write. */
  function Written(t: seq<Effect>): (paths: set<string>)
    ensures forall k :: 0 <= k < |t| && t[k].Render? ==> t[k].path in paths
    decreases |t|
  {
    if t == [] then {}
    else
      var front := t[..|t| - 1];
      assert forall k :: 0 <= k < |front| ==> front[k] == t[k];
      Written(front) + (if t[|t| - 1].Render? then {t[|t| - 1].path} else {})
  }

  /** Each position of `history` rendered to the path of its own index. */
  function RendersInOrder(dir: string, history: seq<string>): (r: seq<Effect>)
    ensures |r| == |history|
    ensures forall i :: 0 <= i < |history| ==> r[i] == Render(history[i], FramePath(dir, i))
  {
    seq(|history|, i requires 0 <= i < |history| => Render(history[i], FramePath(dir, i)))
  }

  /** Paths of the listed names inside `dir`, in listing order. */
  function JoinAll(dir: string, names: seq<string>): (paths: seq<string>)
    ensures |paths| == |names|
    ensures forall i :: 0 <= i < |names| ==> paths[i] == Join(dir, names[i])
  {
    seq(|names|, i requires 0 <= i < |names| => Join(dir, names[i]))
  }

  lemma {:induction false} PausesConcat(a: seq<Effect>, b: seq<Effect>)
    ensures Pauses(a + b) == Pauses(a) + Pauses(b)
    decreases |b|
  {
    if b != [] {
      assert (a + b)[..|a + b| - 1] == a + b[..|b| - 1];
      PausesConcat(a, b[..|b| - 1]);
    } else {
      assert a + b == a;
    }
  }

  lemma {:induction false} RendersConcat(a: seq<Effect>, b: seq<Effect>)
    ensures Renders(a + b) == Renders(a) + Renders(b)
    decreases |b|
  {
    if b != [] {
      assert (a + b)[..|a + b| - 1] == a + b[..|b| - 1];
      RendersConcat(a, b[..|b| - 1]);
    } else {
      assert a + b == a;
    }
  }

  lemma {:induction false} WrittenConcat(a: seq<Effect>, b: seq<Effect>)
    ensures Written(a + b) == Written(a) + Written(b)
    decreases |b|
  {
    if b != [] {
      assert (a + b)[..|a + b| - 1] == a + b[..|b| - 1];
      WrittenConcat(a, b[..|b| - 1]);
    } else {
      assert a + b == a;
    }
  }

  /** One more frame adds one pause exactly when that frame is throttled. */
  lemma PausesForStep(i: nat)
    ensures PausesFor(i + 1) == PausesFor(i) + (if Throttled(i) then 1 else 0)
    ensures PausesFor(i + 1) == i / ThrottleEvery
  {
  }

  /** The pauses, renders and written paths of a single frame step. */
  lemma StepContents(dir: string, i: nat, position: string)
    ensures Pauses(FrameStep(dir, i, position)) == if Throttled(i) then 1 else 0
    ensures Renders(FrameStep(dir, i, position)) == [Render(position, FramePath(dir, i))]
    ensures Written(FrameStep(dir, i, position)) == {FramePath(dir, i)}
  {
    var step := FrameStep(dir, i, position);
    var front := step[..|step| - 1];
    if Throttled(i) {
      assert front == [Pause(ThrottleMillis)];
      assert front[..0] == [];
      assert Pauses(front) == 1 && Renders(front) == [] && Written(front) == {};
    } else {
      assert front == [];
    }
  }

  /** Frame production emits its effects in one pass: each prefix of the history yields a prefix of the trace. */
  lemma {:induction false} TracePrefix(dir: string, history: seq<string>, m: nat)
    requires m <= |history|
    ensures ProduceTrace(dir, history[..m]) <= ProduceTrace(dir, history)
    decreases |history|
  {
    if m < |history| {
      var front := history[..|history| - 1];
      assert history[..m] == front[..m];
      TracePrefix(dir, front, m);
    } else {
      assert history[..m] == history;
    }
  }

  /**
   * Producing `L` frames emits `L + (L - 1) / 1000` effects; with `TraceRenders`
   * and `TracePauses` these are the `L` renders and `(L - 1) / 1000` pauses.
   */
  lemma {:induction false} TraceLength(dir: string, history: seq<string>)
    ensures |ProduceTrace(dir, history)| == |history| + PausesFor(|history|)
    decreases |history|
  {
    if history != [] {
      TraceLength(dir, history[..|history| - 1]);
      PausesForStep(|history| - 1);
    }
  }

  /**
   * The render of frame `i` sits at position `i + i / 1000` of the trace, and
   * the effect just before it is a pause exactly when `i` is throttled,
   * otherwise the render of frame `i - 1`.
   */
  lemma RenderPosition(dir: string, history: seq<string>, i: nat)
    requires i < |history|
    ensures i + i / ThrottleEvery < |ProduceTrace(dir, history)|
    ensures ProduceTrace(dir, history)[i + i / ThrottleEvery] == Render(history[i], FramePath(dir, i))
    ensures 0 < i ==>
      (ProduceTrace(dir, history)[i + i / ThrottleEvery - 1] ==
        if Throttled(i) then Pause(ThrottleMillis) else Render(history[i - 1], FramePath(dir, i - 1)))
  {
    var before := ProduceTrace(dir, history[..i]);
    var step := FrameStep(dir, i, history[i]);
    TracePrefix(dir, history, i + 1);
    TraceSnoc(dir, history, i);
    TraceLength(dir, history[..i]);
    PausesForStep(i);
    var at := |before| + |step| - 1;
    assert at == i + i / ThrottleEvery;
    assert ProduceTrace(dir, history)[at] == step[|step| - 1];
    if 0 < i && !Throttled(i) {
      TraceSnoc(dir, history, i - 1);
      assert ProduceTrace(dir, history)[at - 1] == before[|before| - 1];
    }
  }

  /** The trace for the first `i + 1` positions is the trace for the first `i`, then step `i`. */
  lemma TraceSnoc(dir: string, history: seq<string>, i: nat)
    requires i < |history|
    ensures ProduceTrace(dir, history[..i + 1]) == ProduceTrace(dir, history[..i]) + FrameStep(dir, i, history[i])
  {
    assert history[..i + 1][..i] == history[..i];
  }

  /** Producing `L` frames pauses `(L - 1) / 1000` times (none for an empty history). */
  lemma {:induction false} TracePauses(dir: string, history: seq<string>)
    ensures Pauses(ProduceTrace(dir, history)) == PausesFor(|history|)
    decreases |history|
  {
    if history != [] {
      var n := |history| - 1;
      TracePauses(dir, history[..n]);
      PausesConcat(ProduceTrace(dir, history[..n]), FrameStep(dir, n, history[n]));
      StepContents(dir, n, history[n]);
      PausesForStep(n);
    }
  }

  /** The renderer sees every position once, in play order, each written to its own index's path. */
  lemma {:induction false} TraceRenders(dir: string, history: seq<string>)
    ensures Renders(ProduceTrace(dir, history)) == RendersInOrder(dir, history)
    decreases |history|
  {
    if history != [] {
      var n := |history| - 1;
      var front := history[..n];
      TraceRenders(dir, front);
      RendersConcat(ProduceTrace(dir, front), FrameStep(dir, n, history[n]));
      StepContents(dir, n, history[n]);
      RendersInOrderSnoc(dir, history);
    }
  }

  /** The renders in order for a history are those for all but its last position, then the last. */
  lemma RendersInOrderSnoc(dir: string, history: seq<string>)
    requires history != []
    ensures var n := |history| - 1;
      RendersInOrder(dir, history) == RendersInOrder(dir, history[..n]) + [Render(history[n], FramePath(dir, n))]
  {
    var n := |history| - 1;
    var front := history[..n];
    var whole, parts := RendersInOrder(dir, history), RendersInOrder(dir, front) + [Render(history[n], FramePath(dir, n))];
    forall k | 0 <= k < |whole| ensures whole[k] == parts[k] {
      if k < n { assert front[k] == history[k]; }
    }
  }

  /** Producing the frames of `history` writes exactly the paths of frames `0 .. L-1`. */
  lemma {:induction false} TraceWrites(dir: string, history: seq<string>)
    ensures Written(ProduceTrace(dir, history)) == FrameFiles(dir, |history|)
    decreases |history|
  {
    if history != [] {
      var n := |history| - 1;
      TraceWrites(dir, history[..n]);
      WrittenConcat(ProduceTrace(dir, history[..n]), FrameStep(dir, n, history[n]));
      StepContents(dir, n, history[n]);
      FrameFilesSnoc(dir, n);
    }
  }

  /** Creating a folder before `t` adds no pause, no render and no written path. */
  lemma FolderFirst(dir: string, t: seq<Effect>)
    ensures Renders([CreateFolder(dir)] + t) == Renders(t)
    ensures Pauses([CreateFolder(dir)] + t) == Pauses(t)
    ensures Written([CreateFolder(dir)] + t) == Written(t)
  {
    var lead := [CreateFolder(dir)];
    assert lead[..0] == [];
    RendersConcat(lead, t);
    PausesConcat(lead, t);
    WrittenConcat(lead, t);
  }

  /** What chess.js made of the game record: the position after each move, or its error text. */
  datatype ParseResult = Parsed(history: seq<string>) | Unparsable(error: string)

  /** How a run ends: exit with a status and a message, or start the encoder. */
  datatype Outcome = Exit(status: nat, message: string) | Encode(input: string, framerate: nat)

  /** Everything a run leaves behind. */
  datatype Report = Report(outcome: Outcome, images: seq<string>, effects: seq<Effect>)

  const MissingRecordMessage: string := "No game.pgn file found"

  /**
   * A whole run, given whether the record file exists, what parsing it gives,
   * whether the temp folder exists and, if so, its listing.
   */
  function RunSpec(tempDir: string, recordExists: bool, parse: ParseResult,
                   folderExists: bool, listing: seq<string>, desiredTime: nat): (r: Report)
    requires desiredTime > 0
    ensures r.outcome.Exit? <==> !recordExists || parse.Unparsable?
    ensures r.outcome.Exit? ==> r.outcome.status == 1 && r.images == [] && r.effects == []
    ensures r.outcome.Encode? ==> r.outcome == Encode(EncoderInput, Fps(|r.images|, desiredTime))
    ensures folderExists ==> r.effects == []
  {
    if !recordExists then Report(Exit(1, MissingRecordMessage), [], [])
    else if parse.Unparsable? then Report(Exit(1, ParseDiagnostic(parse.error)), [], [])
    else if !folderExists then
      var images := FramePaths(tempDir, |parse.history|);
      Report(Encode(EncoderInput, Fps(|images|, desiredTime)), images,
             [CreateFolder(tempDir)] + ProduceTrace(tempDir, parse.history))
    else
      var images := JoinAll(tempDir, listing);
      Report(Encode(EncoderInput, Fps(|images|, desiredTime)), images, [])
  }

  /** One invocation of the program: the frame paths it collects and what it has done so far. */
  class Session {
    const tempDir: string
    var images: seq<string>
    ghost var effects: seq<Effect>

    constructor (tempDir: string)
      ensures this.tempDir == tempDir && images == [] && effects == []
    {
      this.tempDir := tempDir;
      images := [];
      effects := [];
    }

    /** Renders every position of `history` in order, pausing before each throttled index. */
    method ProduceFrames(history: seq<string>)
      modifies this
      ensures images == old(images) + FramePaths(tempDir, |history|)
      ensures effects == old(effects) + ProduceTrace(tempDir, history)
    {
      for i := 0 to |history|
        invariant images == old(images) + FramePaths(tempDir, i)
        invariant effects == old(effects) + ProduceTrace(tempDir, history[..i])
      {
        if i != 0 && i % ThrottleEvery == 0 {
          effects := effects + [Pause(ThrottleMillis)];
        }
        var path := FramePath(tempDir, i);
        effects := effects + [Render(history[i], path)];
        images := images + [path];
        assert history[..i + 1][..i] == history[..i];
        FramePathsSnoc(tempDir, i);
      }
      assert history[..|history|] == history;
    }

    /** Takes the listed files of the existing temp folder as the frames, in listing order. */
    method ReuseFrames(listing: seq<string>)
      modifies this
      ensures images == old(images) + JoinAll(tempDir, listing)
      ensures effects == old(effects)
    {
      for i := 0 to |listing|
        invariant images == old(images) + JoinAll(tempDir, listing[..i])
        invariant effects == old(effects)
      {
        images := images + [Join(tempDir, listing[i])];
        assert listing[..i + 1] == listing[..i] + [listing[i]];
      }
      assert listing[..|listing|] == listing;
    }

    /** The program's `main`, from the record check to starting the encoder. */
    method Run(recordExists: bool, parse: ParseResult, folderExists: bool,
               listing: seq<string>, desiredTime: nat) returns (outcome: Outcome)
      requires desiredTime > 0
      requires images == [] && effects == []
      modifies this
      ensures Report(outcome, images, effects) ==
        RunSpec(tempDir, recordExists, parse, folderExists, listing, desiredTime)
    {
      if !recordExists {
        return Exit(1, MissingRecordMessage);
      }
      if parse.Unparsable? {
        return Exit(1, ParseDiagnostic(parse.error));
      }
      if !folderExists {
        effects := effects + [CreateFolder(tempDir)];
        ProduceFrames(parse.history);
      } else {
        ReuseFrames(listing);
      }
      var fps := Fps(|images|, desiredTime);
      outcome := Encode(EncoderInput, fps);
    }
  }

  /**
   * A missing record file or an unparsable record ends the run with status 1
   * before any folder is created or any frame rendered.
   */
  lemma AbortsBeforeAnyWork(tempDir: string, recordExists: bool, parse: ParseResult,
                            folderExists: bool, listing: seq<string>, desiredTime: nat)
    requires desiredTime > 0
    requires !recordExists || parse.Unparsable?
    ensures var r := RunSpec(tempDir, recordExists, parse, folderExists, listing, desiredTime);
      r.effects == [] && r.images == [] && r.outcome.Exit? && r.outcome.status == 1 &&
      r.outcome.message == if !recordExists then MissingRecordMessage else ParseDiagnostic(parse.error)
  {
  }

  /**
   * Without a temp folder the run creates it first and then renders every
   * position once, in order, to the path of its own index; the frames are the
   * paths `0 .. L-1` in order, there are `(L - 1) / 1000` pauses, and the
   * encoder gets the rate for `L` frames.
   */
  lemma FreshFolderRendersEveryPosition(tempDir: string, history: seq<string>,
                                        listing: seq<string>, desiredTime: nat)
    requires desiredTime > 0
    ensures var r := RunSpec(tempDir, true, Parsed(history), false, listing, desiredTime);
      && |r.images| == |history|
      && (forall i :: 0 <= i < |history| ==> r.images[i] == FramePath(tempDir, i))
      && r.effects[0] == CreateFolder(tempDir)
      && Renders(r.effects) == RendersInOrder(tempDir, history)
      && Pauses(r.effects) == PausesFor(|history|)
      && r.outcome == Encode(EncoderInput, Fps(|history|, desiredTime))
  {
    var t := ProduceTrace(tempDir, history);
    TraceRenders(tempDir, history);
    TracePauses(tempDir, history);
    FolderFirst(tempDir, t);
  }

  /**
   * With a temp folder present nothing is created, paused or rendered, whatever
   * the game: the frames are the listing joined to the folder, same length,
   * same order, and the rate is computed from the listing's length.
   */
  lemma ExistingFolderRendersNothing(tempDir: string, parse: ParseResult,
                                     listing: seq<string>, desiredTime: nat)
    requires desiredTime > 0 && parse.Parsed?
    ensures var r := RunSpec(tempDir, true, parse, true, listing, desiredTime);
      && r.effects == []
      && |r.images| == |listing|
      && (forall i :: 0 <= i < |listing| ==> r.images[i] == Join(tempDir, listing[i]))
      && r.outcome == Encode(EncoderInput, Fps(|listing|, desiredTime))
  {
  }

  /** No name occurs twice in `s`. */
  predicate Distinct(s: seq<string>) {
    forall i, j :: 0 <= i < j < |s| ==> s[i] != s[j]
  }

  /** A listing without repetitions has as many distinct entries as it is long. */
  lemma {:induction false} DistinctCount(s: seq<string>)
    requires Distinct(s)
    ensures |set x | x in s| == |s|
    decreases |s|
  {
    if s != [] {
      var n := |s| - 1;
      var front := s[..n];
      assert Distinct(front);
      DistinctCount(front);
      assert (set x | x in s) == (set x | x in front) + {s[n]};
    }
  }

  /** Distinct names joined to one folder stay distinct. */
  lemma JoinAllDistinct(dir: string, names: seq<string>)
    requires Distinct(names)
    ensures Distinct(JoinAll(dir, names))
  {
    var paths := JoinAll(dir, names);
    forall i, j | 0 <= i < j < |paths| ensures paths[i] != paths[j] {
      if paths[i] == paths[j] {
        JoinInjective(dir, names[i], names[j]);
      }
    }
  }

  /**
   * Running twice with the same record: the first run creates the temp folder
   * and writes exactly the files of frames `0 .. L-1` into it. When the second
   * run's listing names exactly those files, each once, the second run renders
   * nothing, collects as many frames as the first and starts the encoder
   * exactly as the first did.
   */
  lemma SecondRunReuses(tempDir: string, history: seq<string>, listing: seq<string>, desiredTime: nat)
    requires desiredTime > 0
    requires Distinct(listing)
    requires (set p | p in JoinAll(tempDir, listing)) ==
      Written(RunSpec(tempDir, true, Parsed(history), false, [], desiredTime).effects)
    ensures var first := RunSpec(tempDir, true, Parsed(history), false, [], desiredTime);
      var second := RunSpec(tempDir, true, Parsed(history), true, listing, desiredTime);
      && first.effects[0] == CreateFolder(tempDir)
      && Written(first.effects) == FrameFiles(tempDir, |history|)
      && second.effects == []
      && |second.images| == |first.images|
      && second.outcome == first.outcome
  {
    var t := ProduceTrace(tempDir, history);
    FolderFirst(tempDir, t);
    TraceWrites(tempDir, history);
    FrameFilesCount(tempDir, |history|);
    JoinAllDistinct(tempDir, listing);
    DistinctCount(JoinAll(tempDir, listing));
  }
}
