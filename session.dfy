/**
  The page-level state of script.js and the entry points that change it:
  `analyzeSplits` stores a copy of the splits it analyzes in `extractedSplits`,
  `calibrateZone` sets `calibratedZone`, and `analyzeVideo` and the OCR path
  feed their splits into `analyzeSplits`.

  The scan canvas has a fixed size. `Math.sqrt` is a collaborator handed to the
  session, known only through its specification.
 */
module Session {
  import opened Outcomes
  import Regression
  import Pacing
  import Brightness
  import Detector
  import SplitParser

  /** f is the non-negative square root on the non-negative reals. */
  ghost predicate IsSquareRoot(f: real -> real) {
    forall x :: x >= 0.0 ==> f(x) >= 0.0 && f(x) * f(x) == x
  }

  class Session {
    var extractedSplits: seq<real>
    var calibratedZone: Option<Brightness.Zone>
    const canvasWidth: nat
    const canvasHeight: nat
    const sqrt: real -> real

    ghost predicate Valid()
      reads this
    {
      && IsSquareRoot(sqrt)
      && (calibratedZone.Some? ==> Brightness.ZoneWithin(calibratedZone.value, canvasWidth, canvasHeight))
    }

    /** The page as loaded: no splits analyzed yet and no zone calibrated. */
    constructor (canvasWidth: nat, canvasHeight: nat, sqrt: real -> real)
      requires IsSquareRoot(sqrt)
      ensures Valid()
      ensures extractedSplits == [] && calibratedZone == None
      ensures this.canvasWidth == canvasWidth && this.canvasHeight == canvasHeight && this.sqrt == sqrt
    {
      this.canvasWidth := canvasWidth;
      this.canvasHeight := canvasHeight;
      this.sqrt := sqrt;
      extractedSplits := [];
      calibratedZone := None;
    }

    /** The standard deviation `analyzeSplits` computes: the square root of the population variance. */
    function StdDev(splits: seq<real>): (sd: real)
      ensures |splits| > 0 && IsSquareRoot(sqrt) ==> sd >= 0.0 && sd * sd == Pacing.Variance(splits)
    {
      if |splits| == 0 then 0.0
      else
        Pacing.VarianceNonNegative(splits);
        sqrt(Pacing.Variance(splits))
    }

    /** The report `analyzeSplits` returns for positive splits, with this session's square root. */
    function Report(splits: seq<real>, sourceLabel: string): (report: Result<Pacing.PacingReport>)
      requires IsSquareRoot(sqrt) && Pacing.AllPositive(splits)
      ensures report.Ok? <==> |splits| >= 2
      ensures report.Ok? ==> report.value.stdDev >= 0.0
    {
      Pacing.Analyze(splits, sourceLabel, StdDev(splits))
    }

    /**
      `analyzeSplits(splits, sourceLabel)`: fewer than two splits fails and
      leaves the state alone; otherwise `extractedSplits` becomes a copy of the
      splits and the statistics are computed one by one, the trend by the
      regression loop, giving the report the pacing analysis defines.
     */
    method AnalyzeSplits(splits: seq<real>, sourceLabel: string) returns (report: Result<Pacing.PacingReport>)
      requires Valid() && Pacing.AllPositive(splits)
      modifies this
      ensures Valid()
      ensures report == Report(splits, sourceLabel)
      ensures |splits| < 2 ==> extractedSplits == old(extractedSplits)
      ensures |splits| >= 2 ==> extractedSplits == splits
      ensures calibratedZone == old(calibratedZone)
    {
      if |splits| < 2 {
        report := Err(InsufficientData);
        return;
      }
      extractedSplits := splits;
      var mean := Regression.Mean(splits);
      Pacing.MeanPositive(splits);
      var variance := Pacing.Variance(splits);
      Pacing.VarianceNonNegative(splits);
      var stdDev := sqrt(variance);
      var cv := Pacing.CoefficientOfVariation(stdDev, mean);
      var best, worst := Pacing.Min(splits), Pacing.Max(splits);
      var dropOff := Pacing.DropOff(best, worst);
      var regression := Regression.LinearRegression(splits);
      var consistencyScore := Pacing.ConsistencyScore(cv, regression.slope);
      report := Ok(Pacing.PacingReport(|splits|, best, worst, mean, variance, stdDev, cv, dropOff,
                                       regression, consistencyScore, sourceLabel));
    }

    /**
      `calibrateZone()`: without a loaded video (width 0) nothing happens;
      otherwise the default zone of the scan canvas is stored.
     */
    method CalibrateZone(videoWidth: nat) returns (outcome: Result<Brightness.Zone>)
      requires Valid()
      modifies this
      ensures Valid()
      ensures videoWidth == 0 ==> outcome == Err(MissingPrerequisite) && calibratedZone == old(calibratedZone)
      ensures videoWidth != 0 ==>
        var zone := Brightness.CalibratedZone(canvasWidth, canvasHeight);
        outcome == Ok(zone) && calibratedZone == Some(zone)
      ensures extractedSplits == old(extractedSplits)
    {
      if videoWidth == 0 {
        outcome := Err(MissingPrerequisite);
        return;
      }
      var zone := Brightness.CalibratedZone(canvasWidth, canvasHeight);
      calibratedZone := Some(zone);
      outcome := Ok(zone);
    }

    /** The contact times the scan records over the frames with the given zone. */
    ghost function VideoEvents(frames: seq<array<Brightness.byte>>, zone: Brightness.Zone, duration: real, sampleRate: real, sensitivity: real): seq<real>
      reads frames
    {
      Detector.ScanSpec(Detector.ZoneTrace(frames, canvasWidth, zone), duration, sampleRate, sensitivity)
    }

    /**
      `analyzeVideo()`: without a loaded video it fails and changes nothing.
      Otherwise it calibrates the zone if none is set, scans the frames, fails
      when fewer than three contacts are found, and otherwise analyzes the splits
      between the contacts. `frames[k]` is the scan canvas drawn at sample time k.
     */
    method AnalyzeVideo(videoWidth: nat, duration: real, sampleRate: real, sensitivity: real,
                        frames: seq<array<Brightness.byte>>) returns (report: Result<Pacing.PacingReport>)
      requires Valid()
      requires forall i :: 0 <= i < |frames| ==> frames[i].Length == canvasWidth * canvasHeight * 4
      requires duration <= |frames| as real * Detector.FrameStep(sampleRate)
      modifies this
      ensures Valid()
      ensures videoWidth == 0 ==>
        report == Err(MissingPrerequisite) && calibratedZone == old(calibratedZone) && extractedSplits == old(extractedSplits)
      ensures videoWidth != 0 ==>
        && calibratedZone == (if old(calibratedZone).Some? then old(calibratedZone)
                              else Some(Brightness.CalibratedZone(canvasWidth, canvasHeight)))
        && var events := VideoEvents(frames, calibratedZone.value, duration, sampleRate, sensitivity);
           var splits := Detector.Differences(events);
           && (|events| < 3 ==> report == Err(InsufficientEvents) && extractedSplits == old(extractedSplits))
           && (|events| >= 3 ==>
                 && Pacing.AllPositive(splits)
                 && report == Report(splits, "Video event detector")
                 && report.Ok? && extractedSplits == splits)
    {
      if videoWidth == 0 {
        report := Err(MissingPrerequisite);
        return;
      }
      if calibratedZone.None? {
        var _ := CalibrateZone(videoWidth);
      }
      var zone := calibratedZone.value;
      var contactTimes := Detector.ScanEvents(frames, canvasWidth, canvasHeight, zone, duration, sampleRate, sensitivity);
      if |contactTimes| < 3 {
        report := Err(InsufficientEvents);
        return;
      }
      var splits := Detector.DeriveSplits(contactTimes);
      assert Pacing.AllPositive(splits) by {
        Detector.ScanSplitsLong(Detector.ZoneTrace(frames, canvasWidth, zone), duration, sampleRate, sensitivity);
      }
      report := AnalyzeSplits(splits, "Video event detector");
    }

    /**
      The end of `runOCR`: the recognized text is filtered and parsed, and only
      two or more times are analyzed; otherwise nothing happens (`None`).
     */
    method AnalyzeOcrText(text: string) returns (report: Option<Result<Pacing.PacingReport>>)
      requires Valid()
      modifies this
      ensures Valid()
      ensures var times := SplitParser.OcrSplits(text);
        && (|times| < 2 ==> report == None && extractedSplits == old(extractedSplits))
        && (|times| >= 2 ==> report == Some(Report(times, "Image OCR")) && extractedSplits == times)
      ensures report.Some? ==> report.value.Ok?
      ensures calibratedZone == old(calibratedZone)
    {
      var candidateTimes := SplitParser.ParseSplits(SplitParser.OcrClean(text));
      report := None;
      if |candidateTimes| >= 2 {
        var analyzed := AnalyzeSplits(candidateTimes, "Image OCR");
        report := Some(analyzed);
      }
    }
  }
}
