/**
 * Concrete scenarios: the pinned frame rates, the pauses of long games and
 * an end-to-end run.
 */
module Scenarios {
  import opened FrameNaming
  import opened Rates
  import opened Pipeline

  /** The pinned examples of the frame rate, including 0 for an empty game. */
  lemma FpsExamples(frames: nat, desiredTime: nat, fps: nat)
    requires (frames, desiredTime, fps) in
      {(300, 30, 10), (301, 30, 10), (40, 4, 10), (1, 1, 1), (0, 30, 0), (1, 3, 0)}
    ensures desiredTime > 0 && Fps(frames, desiredTime) == fps
  {
    RoundHalfUpUnique(frames, desiredTime, fps);
  }

  /**
   * A history of 2500 positions pauses twice, just before frames 1000 and
   * 2000; one of 1000 positions or fewer never pauses; 1001 positions pause once.
   */
  lemma ThrottleExamples(dir: string, history: seq<string>)
    ensures |history| <= 1000 ==> Pauses(ProduceTrace(dir, history)) == 0
    ensures |history| == 1001 ==> Pauses(ProduceTrace(dir, history)) == 1
    ensures |history| == 2500 ==> Pauses(ProduceTrace(dir, history)) == 2
    ensures |history| == 2500 ==> |ProduceTrace(dir, history)| == 2502
    ensures |history| == 2500 ==>
      && ProduceTrace(dir, history)[1000] == Pause(ThrottleMillis)
      && ProduceTrace(dir, history)[1001] == Render(history[1000], FramePath(dir, 1000))
      && ProduceTrace(dir, history)[2001] == Pause(ThrottleMillis)
      && ProduceTrace(dir, history)[2002] == Render(history[2000], FramePath(dir, 2000))
  {
    TracePauses(dir, history);
    TraceLength(dir, history);
    if |history| == 2500 {
      RenderPosition(dir, history, 1000);
      RenderPosition(dir, history, 2000);
    }
  }

  /**
   * A 40-move game with a desired duration of 4 seconds renders 40 frames in
   * order, without a pause, and starts the encoder at 10 frames per second.
   */
  lemma FortyMovesInFourSeconds(tempDir: string, history: seq<string>)
    requires |history| == 40
    ensures var r := RunSpec(tempDir, true, Parsed(history), false, [], 4);
      && r.images == FramePaths(tempDir, 40)
      && Renders(r.effects) == RendersInOrder(tempDir, history)
      && Pauses(r.effects) == 0
      && r.outcome == Encode(EncoderInput, 10)
  {
    FreshFolderRendersEveryPosition(tempDir, history, [], 4);
    FpsExact(10, 4);
  }
}
