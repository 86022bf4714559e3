# Swim split analyzer — a Dafny model

The swim split analyzer is a single-page tool, `script.js`. It takes a swimmer's
lap splits in seconds from one of three sources:

- typed text ("Manual splits");
- wall-touch events detected in a video ("Video event detector");
- text recognized in an image ("Image OCR").

From the splits it computes a pacing report:

- the mean and the population variance;
- the coefficient of variation;
- the best and the worst split, and the drop-off between them;
- a least-squares trend of split time against lap index;
- a consistency score between 0 and 100.

This project models that pipeline and proves what each stage guarantees.

| file | models |
|---|---|
| `outcomes.dfy` | `Option`, `Result` and the failures an entry point reports; the tool reports them with `alert` and an early `return` |
| `split_parser.dfy` | `parseSplits`: splitting text at runs of commas and white space, `Number` on each trimmed token, keeping the finite positive values. It also models the character filter of the OCR path. |
| `regression.dfy` | `linearRegression`: the accumulation loop, proved equal to the ordinary-least-squares line, and the properties of that line |
| `pacing.dfy` | the statistics of `analyzeSplits`, gathered into one report |
| `brightness.dfy` | `averageBrightness`: nested loops over an RGBA byte array, computing the mean ITU-R BT.601 luma of a zone. It also models the zone arithmetic of `calibrateZone`. |
| `detector.dfy` | the scan loop of `analyzeVideo`, which records wall contacts more than 3.5 s apart, and the loop that turns contacts into splits |
| `session.dfy` | the page state as a class. `extractedSplits` and `calibratedZone` are fields. `analyzeSplits`, `calibrateZone`, `analyzeVideo` and the end of `runOCR` are methods that update them. |

JavaScript numbers are modelled as exact reals (`real`).

`Math.sqrt` is a collaborator handed to the session. The model knows it only through its specification: it returns the non-negative square root. The pure report function instead takes the standard deviation as a parameter constrained the same way.

The video is given as its scan-canvas frames, one RGBA byte array per sample time. Sample k is taken at time k · frameStep.

## Model

| member | source | states |
|---|---|---|
| SplitParser.Split | script.js:41 | Splitting never yields zero tokens, and no token contains a comma, a newline or white space. |
| SplitParser.SplitKeepsContent | script.js:41 | Splitting loses nothing but separators. Gluing the tokens back together gives the text with every separator removed. |
| SplitParser.SplitInnerTokensNonEmpty | script.js:41 | Only the first and the last token can be empty. The first is empty exactly when the text is empty or starts with a separator. |
| SplitParser.SplitAtSeparatorRun | script.js:41 | A separator-free token followed by a run of separators is split off as one token, whatever follows. |
| SplitParser.SplitSeparatorFree | script.js:41 | Text without separators is a single token. |
| SplitParser.SkipSeparators | script.js:41 | Skipping separators drops exactly a leading run of separators. What remains starts with a non-separator or is empty. |
| SplitParser.FractionValue | script.js:42 | The digits after the point have a value in [0, 1). |
| SplitParser.ParseUnsigned | script.js:42 | An unsigned decimal literal never parses to a negative value. |
| SplitParser.ParseUnsignedAccepts | script.js:42 | An unsigned literal is read exactly when it is a non-empty digit run, or digits, a point and digits with at least one digit in all. A digit run reads as its value. |
| SplitParser.ParseNumber | script.js:42 | Converting a token without a leading minus never gives a negative number. |
| SplitParser.ParseMalformedToken | script.js:42 | A malformed token such as "1:02" is not a number. |
| SplitParser.Parse589 | script.js:42 | "58.9" reads as 58.9. |
| SplitParser.DecimalTextParses | script.js:42 | Digits, a point and digits, with at least one digit in all, read as their decimal value; ".5" reads as 0.5. |
| SplitParser.CentisTextParses | script.js:42 | A time printed with two decimals reads back as that many hundredths. |
| SplitParser.Numbers | script.js:42 | Converting the tokens gives one result per token. |
| SplitParser.NumbersAppend | script.js:42 | Conversion works token by token, in order. |
| SplitParser.KeepPositive | script.js:43 | The filter never keeps more values than it is given, and every kept value is positive. |
| SplitParser.KeepPositiveAppend | script.js:43 | Filtering distributes over concatenation, so kept values stay in token order. |
| SplitParser.KeepPositiveMembership | script.js:43 | A value is kept exactly when some token converts to it and it is positive. |
| SplitParser.KeepAllAccepted | script.js:43 | When every value is a positive number, the filter keeps all of them unchanged. |
| SplitParser.ParseSplits | script.js:39-44 | Every parsed split is positive. |
| SplitParser.RejectedTokenDropped | script.js:39-44 | A token that is not a positive number is dropped without any error. The result is the same as if the token were absent. |
| SplitParser.ParseEmptyText | script.js:39-44 | Empty text gives no splits. |
| SplitParser.ParseSplitsExample | script.js:39-44 | "1:02, 58.9\n59.5" gives [58.9, 59.5]: the malformed token is skipped. |
| SplitParser.FormatThenParse | script.js:39-44 | Positive times printed with two decimals and separated by ", " parse back to exactly those times, in order. |
| SplitParser.OcrClean | script.js:297 | The filter keeps the length and every digit, point, comma and white-space character. Every other character becomes a separator. |
| SplitParser.OcrCleanIdempotent | script.js:297 | Filtering twice is the same as filtering once. |
| SplitParser.OcrCleanKeepsFormattedSplits | script.js:297 | Printed split times pass the filter unchanged. |
| SplitParser.OcrTokensAreUnsigned | script.js:297 | After the filter, every token is made of digits and points only. |
| SplitParser.OcrSplits | script.js:297 | The OCR path yields only positive times. |
| SplitParser.OcrReadsFormattedSplits | script.js:297 | The OCR path reads printed positive times back exactly. |
| Regression.LinearRegression | script.js:46-61 | The loop's accumulated sums yield exactly the least-squares line `Fit`, including the zero-denominator guard. |
| Regression.IndexSumClosed | script.js:48 | The indices 0 .. k-1 add up to k(k-1)/2, so the index mean is (n-1)/2. |
| Regression.DenominatorPositive | script.js:53-58 | With two or more values, the slope's denominator is strictly positive. |
| Regression.DenominatorZeroIff | script.js:58 | The denominator is zero exactly when there is one value. |
| Regression.SlopeZeroIff | script.js:58-59 | For two or more values, the slope is zero exactly when the index–value cross sum is zero. |
| Regression.ExactLinearRecovered | script.js:46-61 | For values a + b·i (n ≥ 2), the regression returns slope b and intercept a. |
| Regression.ConstantSeriesFlat | script.js:46-61 | Constant values give slope 0 and intercept equal to the constant, one value included. |
| Regression.MeanOfLinear | script.js:49 | The mean of values a + b·i is a + b·xMean. |
| Regression.FitThroughCentroid | script.js:59 | The intercept is yMean − slope·xMean, so the line passes through (xMean, yMean). |
| Regression.FitSlopeEquation | script.js:58 | The slope times the denominator equals the numerator. |
| Regression.ResidualsSumToZero | script.js:46-61 | The residuals of the fitted line add up to zero. |
| Regression.ResidualsUncorrelated | script.js:46-61 | The residuals are uncorrelated with the lap index. |
| Regression.FitMinimizesSquaredError | script.js:46-61 | No other line has a smaller sum of squared errors. |
| Pacing.Min | script.js:76 | The best split is one of the splits and no split is below it. |
| Pacing.Max | script.js:77 | The worst split is one of the splits and no split is above it. |
| Pacing.DropOff | script.js:78 | The drop-off is non-negative when the best split is positive and no larger than the worst. It is zero exactly when the two are equal. |
| Pacing.CoefficientOfVariation | script.js:74 | With a non-negative deviation and a positive mean, the coefficient of variation is non-negative. |
| Pacing.ConsistencyScore | script.js:82 | The score is never negative. For cv ≥ 0 it is at most 100, and it is exactly 100 only with no variation and a flat trend. |
| Pacing.VarianceNonNegative | script.js:72 | The population variance is never negative. |
| Pacing.MeanPositive | script.js:71 | The mean of positive splits is positive. |
| Pacing.Analyze | script.js:63-82 | Fewer than two splits fails with `InsufficientData`. Otherwise the report satisfies all of the following. The count and label are the inputs. Best ≤ every split ≤ worst, and both are splits. The mean is positive. The variance is non-negative and is the square of the deviation. The cv and the drop-off are non-negative. The trend is the least-squares line. The score lies in [0, 100]. |
| Pacing.EvenPacingScoresFull | script.js:63-82 | Equal splits give zero variance, zero drop-off, a flat trend and the full score of 100. |
| Pacing.ManualEntryExample | script.js:63-82 | The manual-entry example splits 60.2, 58.9, 59.5, 61.0 give best 58.9, worst 61.0, mean 59.9, variance 0.615, a drop-off just under 3.57 % and a trend of +0.3 s per split. |
| Pacing.ManualEntryReport | script.js:63-82 | For the manual-entry example labelled "Manual splits", the report is produced, with four splits, best 58.9, worst 61.0, mean 59.9, variance 0.615, a drop-off in (3.56, 3.57) %, a trend of +0.3 s per split and a consistency score in (83, 84). |
| Brightness.PixelInside | script.js:176-179 | For a pixel inside the frame, the three colour bytes read lie inside the buffer. |
| Brightness.PixelIndexShift | script.js:176 | One pixel to the right is four bytes further on. |
| Brightness.AverageBrightness | script.js:169-186 | The nested loops return the mean luma over the zone, which is 0 for a zone without pixels. The count is exactly w·h, every read is in bounds, and the result lies in [0, 255]. |
| Brightness.AreaIsProduct | script.js:181 | Counting pixels row by row gives w·h. |
| Brightness.ZoneAverageBounded | script.js:180-185 | Whatever the bytes, the zone average lies in [0, 255]. |
| Brightness.UniformZone | script.js:169-186 | A zone whose pixels all have the same luma reads as that luma. |
| Brightness.CalibratedZone | script.js:199-204 | The default zone lies inside the canvas. It is at least one pixel wide exactly when the canvas is at least 6 pixels wide, and at least one pixel high exactly when the canvas is at least 2 pixels high. |
| Detector.FrameStep | script.js:228 | The step lies in (0, 1], and it is the reciprocal of the sample rate when the rate is at least 1. |
| Detector.SampleCount | script.js:233 | The scan visits exactly the samples whose time is before the duration. |
| Detector.ZoneTrace | script.js:237 | The trace has one brightness per frame: the zone average of that frame. |
| Detector.ScanEvents | script.js:230-250 | The scan loop records exactly the contact times of the detection rule over the frames' zone brightness. |
| Detector.DetectStep | script.js:239-245 | One more sample is recorded exactly when it fires and either `!last` holds or the last contact is more than 3.5 s back. |
| Detector.DetectSpaced | script.js:243 | Consecutive contact times are more than 3.5 s apart. |
| Detector.SpacedIncreasing | script.js:243-244 | Spaced contact times are strictly increasing. |
| Detector.DetectRecordsFirings | script.js:239-244 | Every contact time is the time of a sample with a previous sample and a brightness jump larger than the sensitivity. |
| Detector.DetectPositive | script.js:231-241 | The first sample never fires, so every contact time is positive. |
| Detector.FalsyLastIffNoContact | script.js:242-243 | `!last` holds exactly when no contact has been recorded yet. |
| Detector.DetectBefore | script.js:233-244 | Every contact time comes before the current sample time. |
| Detector.DetectComplete | script.js:239-245 | Every firing sample is either recorded or falls within 3.5 s after an earlier contact. |
| Detector.ScanSpaced | script.js:230-250 | A scan's contact times are spaced, strictly increasing and positive. |
| Detector.Differences | script.js:257-260 | n contact times give n − 1 splits; none give none. |
| Detector.DeriveSplits | script.js:257-260 | The split loop yields the gaps between consecutive contact times. |
| Detector.DifferencesAt | script.js:259 | Split i is contact i + 1 minus contact i. |
| Detector.AccumulateDifferences | script.js:257-260 | Adding the splits back onto the first contact time recovers every contact time, so the splits lose nothing but the start. |
| Detector.SpacedSplitsLong | script.js:257-260 | Splits between spaced contacts are longer than 3.5 s. |
| Detector.ScanSplitsLong | script.js:257-262 | Every split a scan yields is longer than 3.5 s, hence positive. |
| Detector.ThreeSpikesPrefix | script.js:230-250 | Over any prefix of such a trace, the contacts are the spike times taken so far; the falling edge after each spike is never recorded. |
| Detector.ThreeSpikesDetected | script.js:230-260 | With a step of at most 3.5 s and spikes more than 3.5 s apart, the contacts are exactly the three spike times and the splits are the two gaps between them. |
| Detector.SpikesAtTenFortyFiveEighty | script.js:228-260 | At 5 Hz over 90 s, spikes at 10 s, 45 s and 80 s give the contacts 10, 45, 80 and the splits 35, 35. |
| Session.Session.StdDev | script.js:73 | The standard deviation is non-negative and its square is the variance. |
| Session.Session.Report | script.js:63-82 | The report exists exactly when there are at least two splits, and then its deviation is non-negative. |
| Session.Session.AnalyzeSplits | script.js:63-82 | Fewer than two splits fails and leaves `extractedSplits` unchanged. Otherwise `extractedSplits` becomes the splits, the trend comes from the regression loop, and the report is the pacing report. The calibrated zone is never touched. |
| Session.Session.CalibrateZone | script.js:188-204 | Without a video it fails and changes nothing. Otherwise it stores the default zone, which lies inside the canvas. |
| Session.Session.AnalyzeVideo | script.js:211-262 | Without a video it fails and changes nothing. Otherwise it calibrates the zone if none is set. With fewer than three contacts it fails with `InsufficientEvents` and leaves the splits alone. Otherwise the splits between contacts are all positive, they are analyzed successfully, and they are stored. |
| Session.Session.AnalyzeOcrText | script.js:297-300 | The filtered text is parsed. Two or more times are analyzed and stored, and the analysis always succeeds. Fewer times change nothing. |

## Left out

- DOM wiring, event listeners, `alert` text, `renderChart`, `renderInsights` and `metric` (script.js:1-37, 96-167) are left out. They only draw and print. This includes the 0.12 s "plan tone" branch, which only chooses a sentence.
- Video seeking, `drawImage` and `getImageData` (script.js:233-236, 265-274) are asynchronous media I/O. They are replaced by the given frame buffers, one per sample time. `Detector.ScanEvents` requires a frame for every sample before the duration.
- `TextDetector`, `createImageBitmap` and the file inputs of `runOCR` (script.js:276-296) are browser APIs. The recognized text is an input of `Session.Session.AnalyzeOcrText`.
- The manual-entry button and the analysis run on page load (script.js:303-312) are left out. They only connect `parseSplits` to `analyzeSplits`, and both of those are modelled.
- `Math.sqrt` cannot be computed over the reals. It is a session parameter known to be the non-negative square root.
- IEEE-754 rounding is not modelled. Sample times are exactly k · frameStep rather than a repeated floating-point sum. The zone floors use exact products, so JavaScript's 0.58 · 100 = 57.99999999999999 floors differently. Sums are exact.
- SplitParser.ParseNumber: models `Number` for decimal notation only, with an optional sign and an optional point, where empty text is 0. Hexadecimal, binary, octal (`0o…`), exponent and `Infinity` spellings read as not-a-number here, whereas JavaScript accepts them. A decimal literal beyond the double range (about 309 digits) becomes Infinity in JavaScript and is rejected by `Number.isFinite`, and a literal below the smallest positive double becomes 0 and is rejected by `v > 0`; the model keeps both as positive splits. On the OCR path letters and signs are already blanked, so none of them can occur there.
- SplitParser.IsSpace: JavaScript's `\s` class is listed explicitly. There is no Unicode normalisation.
- Pacing.Analyze: requires positive splits. All three callers guarantee this: parsing keeps only positive values, and detected splits exceed 3.5 s. With a zero mean JavaScript divides by zero and yields Infinity or NaN, which reals cannot express.
- Regression.LinearRegression: requires at least one value. With none JavaScript computes NaN, and the only caller passes at least two.
- Brightness.AverageBrightness: requires the zone to lie inside the frame. In JavaScript a zone that runs past the right edge but not past the last row reads the bytes of the next row at (y · width + x) · 4, giving a finite but wrong average. A zone that runs past the end of the data reads `undefined`, giving NaN. The calibrated zone always lies inside, so neither case arises from the tool's own zone.
- The alpha byte of each pixel is never read, so the model ignores it.
- `[...splits]` copies the array. Sequences are values here, so the copy is plain assignment and aliasing cannot arise.
