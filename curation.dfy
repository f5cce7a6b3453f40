/**
 * The decisions App.tsx takes, as functions of their inputs: how one queued
 * image is judged, what a run produces and which provider calls it makes,
 * which files are queued, what the download archive holds, and which
 * connection check applies. The App module's Curator class runs these
 * decisions against its state; the lemmas here state what they guarantee.
 */
module Curation {
  import opened Types
  import opened JsText
  import opened GeminiService

  /** The settings handleAnalyze reads while it runs. */
  datatype Settings = Settings(apiKey: string, concept: string, annotationType: AnnotationType,
                               model: GeminiModel, lmStudioUrl: string, threshold: real)

  /** The provider replies for one queued image: to the scoring request and to the annotation request. */
  datatype ItemReplies = ItemReplies(scoring: Replies<ScoreResponse>, annotating: Replies<Option<string>>)

  /** A call into the adapter: getScoreAndReason or getAnnotation for the image at `index`. */
  datatype ProviderCall = ScoreCall(index: nat) | AnnotateCall(index: nat)

  const FallbackReason := "API call failed."

  /**
   * The progress line under the spinner. The handler only ever sets it to
   * one of these texts, so the model keeps which one it is and renders the
   * text on demand.
   */
  datatype Progress = Cleared | Starting | Scoring(index: nat, total: nat, name: string) | Annotating(index: nat, total: nat) | Stopped
  {
    function Text(): (t: string)
      ensures t == "" <==> this == Cleared
    {
      match this
      case Cleared => ""
      case Starting => "Starting analysis..."
      case Scoring(i, n, name) => ScoringLine(i, n, name)
      case Annotating(i, n) => AnnotatingLine(i, n)
      case Stopped => "Processing stopped by user."
    }
  }

  /** The line shown while image `i` (counted from 0) of `n` is being scored. */
  function ScoringLine(i: nat, n: nat, name: string): (t: string)
    ensures |t| >= 2 && t[0] == 'S' && t[1] == 'c'
  {
    "Scoring image " + (NatToString(i + 1) + (" of " + (NatToString(n) + (": " + name))))
  }

  /** The line shown while image `i` (counted from 0) of `n` is being annotated. */
  function AnnotatingLine(i: nat, n: nat): (t: string)
    ensures |t| >= 1 && t[0] == 'G'
  {
    "Generating annotation for image " + (NatToString(i + 1) + (" of " + (NatToString(n) + "...")))
  }

  /** Dropping a known head of a concatenation leaves the rest. */
  lemma DropHead(x: string, y: string)
    ensures (x + y)[|x|..] == y
  {
  }

  /** The scoring line determines the position, the queue length and the file name. */
  lemma ScoringTextInjective(i: nat, n: nat, name: string, i': nat, n': nat, name': string)
    requires ScoringLine(i, n, name) == ScoringLine(i', n', name')
    ensures i == i' && n == n' && name == name'
  {
    var a, b := NatToString(i + 1), NatToString(n);
    var a', b' := NatToString(i' + 1), NatToString(n');
    var rest, rest' := " of " + (b + (": " + name)), " of " + (b' + (": " + name'));
    DropHead("Scoring image ", a + rest);
    DropHead("Scoring image ", a' + rest');
    DigitsThenText(a, rest, a', rest');
    DropHead(" of ", b + (": " + name));
    DropHead(" of ", b' + (": " + name'));
    DigitsThenText(b, ": " + name, b', ": " + name');
    DropHead(": ", name);
    DropHead(": ", name');
    assert DecimalValue(a) == DecimalValue(a');
  }

  /** The annotating line determines the position and the queue length. */
  lemma AnnotatingTextInjective(i: nat, n: nat, i': nat, n': nat)
    requires AnnotatingLine(i, n) == AnnotatingLine(i', n')
    ensures i == i' && n == n'
  {
    var a, b := NatToString(i + 1), NatToString(n);
    var a', b' := NatToString(i' + 1), NatToString(n');
    var rest, rest' := " of " + (b + "..."), " of " + (b' + "...");
    DropHead("Generating annotation for image ", a + rest);
    DropHead("Generating annotation for image ", a' + rest');
    DigitsThenText(a, rest, a', rest');
    DropHead(" of ", b + "...");
    DropHead(" of ", b' + "...");
    DigitsThenText(b, "...", b', "...");
    assert DecimalValue(a) == DecimalValue(a');
  }

  /**
   * Every progress line reads back as the one value that produced it: the
   * texts of distinct progress values differ, so the line the user sees
   * names the image position, the queue length and the file exactly.
   */
  lemma ProgressTextInjective(p: Progress, q: Progress)
    requires p.Text() == q.Text()
    ensures p == q
  {
    var t := p.Text();
    match p
    case Scoring(i, n, name) =>
      if q.Scoring? {
        ScoringTextInjective(i, n, name, q.index, q.total, q.name);
      }
    case Annotating(i, n) =>
      if q.Annotating? {
        AnnotatingTextInjective(i, n, q.index, q.total);
      }
    case Starting =>
      assert t[1] == 't';
    case Stopped =>
      assert t[0] == 'P';
    case Cleared =>
  }

  // ---------------------------------------------------------------- one image

  /**
   * The acceptance policy `score >= threshold`: a score at or above the
   * threshold is accepted, and a missing score (`undefined >= threshold` is
   * false) is not.
   */
  predicate Accepts(score: Option<real>, threshold: real) {
    score.Some? && score.value >= threshold
  }

  /** The reason recorded for a failure: the error's message, or a fixed text when it has none. */
  function ErrorReason(message: string): (reason: string)
    ensures reason != ""
    ensures message != "" ==> reason == message
    ensures message == "" ==> reason == FallbackReason
  {
    if message == "" then FallbackReason else message
  }

  /**
   * The shape of a finished result: a terminal status; an Error carries a
   * non-empty reason and no score; an Accepted result has a score; only an
   * Accepted result can carry an annotation.
   */
  predicate WellFormed(r: ImageResult) {
    r.status != Pending
    && (r.status == Error ==> r.score.None? && r.reason.Some? && r.reason.value != "")
    && (r.status == Accepted ==> r.score.Some?)
    && (r.status != Accepted ==> r.annotation.None?)
  }

  /** The terminal result of one image from its scoring and annotation outcomes. */
  function Judge(image: ImageFile, scored: Attempt<ScoreResponse>, annotated: Attempt<Option<string>>,
                 threshold: real): ImageResult
  {
    match scored
    case Failed(m) => Spread(image, Error, None, Some(ErrorReason(m)), None)
    case Ok(sr) =>
      if Accepts(sr.score, threshold) then
        match annotated
        case Failed(m) => Spread(image, Error, None, Some(ErrorReason(m)), None)
        case Ok(a) => Spread(image, Accepted, sr.score, sr.reason, a)
      else Spread(image, Rejected, sr.score, sr.reason, None)
  }

  /**
   * The judgement rules: a result keeps its image and is well formed; it is
   * Accepted exactly when scoring succeeded at or above the threshold and the
   * annotation succeeded, Rejected exactly when scoring succeeded with a score
   * below the threshold or none, and otherwise an Error carrying the failing
   * call's message. A scored result carries the parsed score and reason as
   * they came, missing ones included.
   */
  lemma JudgeRules(image: ImageFile, scored: Attempt<ScoreResponse>, annotated: Attempt<Option<string>>, threshold: real)
    ensures var r := Judge(image, scored, annotated, threshold);
            r.Image() == image && WellFormed(r)
            && (r.status == Accepted <==> scored.Ok? && Accepts(scored.value.score, threshold) && annotated.Ok?)
            && (r.status == Rejected <==> scored.Ok? && !Accepts(scored.value.score, threshold))
            && (r.status != Error ==> r.score == scored.value.score && r.reason == scored.value.reason)
            && (r.status == Accepted ==> r.annotation == annotated.value)
            && (r.status == Error ==>
                  r.reason == Some(ErrorReason(if scored.Failed? then scored.message else annotated.message)))
  {
  }

  function Scored(s: Settings, replies: ItemReplies): Attempt<ScoreResponse> {
    GetScoreAndReason(s.apiKey, s.model, replies.scoring)
  }

  function Annotated(s: Settings, replies: ItemReplies): Attempt<Option<string>> {
    GetAnnotation(s.apiKey, s.annotationType, s.model, replies.annotating)
  }

  /** Whether handling this image goes on to request an annotation. */
  predicate AnnotationRequested(s: Settings, replies: ItemReplies) {
    Scored(s, replies).Ok? && Accepts(Scored(s, replies).value.score, s.threshold)
  }

  function ItemOutcome(s: Settings, image: ImageFile, replies: ItemReplies): ImageResult {
    Judge(image, Scored(s, replies), Annotated(s, replies), s.threshold)
  }

  /** The adapter calls made while handling image `i`. */
  function ItemCalls(s: Settings, i: nat, replies: ItemReplies): seq<ProviderCall> {
    [ScoreCall(i)] + (if AnnotationRequested(s, replies) then [AnnotateCall(i)] else [])
  }

  /** The last progress message set while handling image `i` of `n`. */
  function ItemProgress(s: Settings, i: nat, n: nat, image: ImageFile, replies: ItemReplies): Progress {
    if AnnotationRequested(s, replies) then Annotating(i, n) else Scoring(i, n, image.file.name)
  }

  // ---------------------------------------------------------------- a run

  /** The results of the first `k` images of the queue, in queue order. */
  function Processed(s: Settings, images: seq<ImageFile>, replies: seq<ItemReplies>, k: nat): (rs: seq<ImageResult>)
    requires |replies| == |images| && k <= |images|
    ensures |rs| == k
  {
    if k == 0 then [] else Processed(s, images, replies, k - 1) + [ItemOutcome(s, images[k - 1], replies[k - 1])]
  }

  /** Result j of a run is the judgement of image j from image j's own replies. */
  lemma {:induction false} ProcessedAt(s: Settings, images: seq<ImageFile>, replies: seq<ItemReplies>, k: nat)
    requires |replies| == |images| && k <= |images|
    ensures forall j :: 0 <= j < k ==> Processed(s, images, replies, k)[j] == ItemOutcome(s, images[j], replies[j])
  {
    if k > 0 {
      ProcessedAt(s, images, replies, k - 1);
      var before := Processed(s, images, replies, k - 1);
      assert Processed(s, images, replies, k) == before + [ItemOutcome(s, images[k - 1], replies[k - 1])];
      forall j | 0 <= j < k - 1
        ensures Processed(s, images, replies, k)[j] == before[j]
      {
      }
    }
  }

  /** The adapter calls made while handling the first `k` images. */
  function CallLog(s: Settings, replies: seq<ItemReplies>, k: nat): seq<ProviderCall>
    requires k <= |replies|
  {
    if k == 0 then [] else CallLog(s, replies, k - 1) + ItemCalls(s, k - 1, replies[k - 1])
  }

  /** The index of the first iteration whose stop check reads true, or the queue length when none does. */
  function StopPoint(stopReads: seq<bool>): (k: nat)
    ensures k <= |stopReads|
    ensures forall j :: 0 <= j < k ==> !stopReads[j]
    ensures k < |stopReads| ==> stopReads[k]
  {
    if stopReads == [] || stopReads[0] then 0 else 1 + StopPoint(stopReads[1..])
  }

  /** The stop point is the first index whose read is true, or the end when there is none. */
  lemma {:induction false} StopPointAt(stopReads: seq<bool>, i: nat)
    requires i <= |stopReads| && (i == |stopReads| || stopReads[i])
    requires forall j :: 0 <= j < i ==> !stopReads[j]
    ensures StopPoint(stopReads) == i
  {
    if i > 0 {
      var rest := stopReads[1..];
      assert forall j :: 0 <= j < i - 1 ==> !rest[j] by {
        forall j | 0 <= j < i - 1
          ensures !rest[j]
        {
          assert rest[j] == stopReads[j + 1];
        }
      }
      StopPointAt(rest, i - 1);
      assert !stopReads[0];
    }
  }

  /**
   * The progress text a run leaves behind. The final check of the stop flag
   * (`stopAtEnd`) decides whether it is cleared; when it is not, the text is
   * whatever the run set last.
   */
  function FinalProgress(s: Settings, images: seq<ImageFile>, replies: seq<ItemReplies>,
                         stopReads: seq<bool>, stopAtEnd: bool): Progress
    requires |replies| == |images| == |stopReads|
  {
    var n := |images|;
    if !stopAtEnd then Cleared
    else if StopPoint(stopReads) < n then Stopped
    else LoopProgress(s, images, replies, n)
  }

  /** The progress line once the first `k` images have been handled: the message of the last of them. */
  function LoopProgress(s: Settings, images: seq<ImageFile>, replies: seq<ItemReplies>, k: nat): Progress
    requires |replies| == |images| && k <= |images|
  {
    if k == 0 then Starting else ItemProgress(s, k - 1, |images|, images[k - 1], replies[k - 1])
  }

  /** Every value the result list takes during a run: empty, then one item longer after each image. */
  function Prefixes(rs: seq<ImageResult>): (ps: seq<seq<ImageResult>>)
    ensures |ps| == |rs| + 1
  {
    if rs == [] then [[]] else Prefixes(rs[..|rs| - 1]) + [rs]
  }

  /** Value j of the published list is the first j results. */
  lemma {:induction false} PrefixesAt(rs: seq<ImageResult>)
    ensures forall j :: 0 <= j <= |rs| ==> Prefixes(rs)[j] == rs[..j]
  {
    if rs != [] {
      var init := rs[..|rs| - 1];
      PrefixesAt(init);
      assert forall j :: 0 <= j <= |init| ==> init[..j] == rs[..j];
    }
  }

  /** Every result of a run keeps its image and is well formed. */
  lemma ProcessedWellFormed(s: Settings, images: seq<ImageFile>, replies: seq<ItemReplies>, k: nat)
    requires |replies| == |images| && k <= |images|
    ensures var rs := Processed(s, images, replies, k);
            forall j :: 0 <= j < k ==> rs[j].Image() == images[j] && WellFormed(rs[j])
  {
    ProcessedAt(s, images, replies, k);
    forall j | 0 <= j < k
      ensures ItemOutcome(s, images[j], replies[j]).Image() == images[j]
      ensures WellFormed(ItemOutcome(s, images[j], replies[j]))
    {
      JudgeRules(images[j], Scored(s, replies[j]), Annotated(s, replies[j]), s.threshold);
    }
  }

  /**
   * A run yields at most one result per queued image; result j is built from
   * image j and is terminal and well formed; and every image gets a result
   * exactly when no stop check read true.
   */
  lemma RunResults(s: Settings, images: seq<ImageFile>, replies: seq<ItemReplies>, stopReads: seq<bool>)
    requires |replies| == |images| == |stopReads|
    ensures var rs := Processed(s, images, replies, StopPoint(stopReads));
            |rs| <= |images|
            && (forall j :: 0 <= j < |rs| ==> rs[j].Image() == images[j] && WellFormed(rs[j]))
            && (|rs| == |images| <==> forall j :: 0 <= j < |stopReads| ==> !stopReads[j])
  {
    ProcessedWellFormed(s, images, replies, StopPoint(stopReads));
  }

  /** Result j follows the acceptance rule applied to image j's own score. */
  lemma RunAcceptance(s: Settings, images: seq<ImageFile>, replies: seq<ItemReplies>, k: nat, j: nat)
    requires |replies| == |images| && j < k <= |images|
    ensures var r := Processed(s, images, replies, k)[j];
            var scored := Scored(s, replies[j]);
            (r.status == Accepted <==>
               scored.Ok? && scored.value.score.Some? && scored.value.score.value >= s.threshold
               && Annotated(s, replies[j]).Ok?)
            && (r.status == Rejected <==>
                  scored.Ok? && (scored.value.score.None? || scored.value.score.value < s.threshold))
            && (scored.Failed? ==> r.status == Error && r.score == None && r.reason == Some(ErrorReason(scored.message)))
  {
    ProcessedAt(s, images, replies, k);
  }

  lemma {:induction false} CallLogContents(s: Settings, replies: seq<ItemReplies>, k: nat)
    requires k <= |replies|
    ensures forall j: nat :: ScoreCall(j) in CallLog(s, replies, k) <==> j < k
    ensures forall j: nat :: AnnotateCall(j) in CallLog(s, replies, k) <==> j < k && AnnotationRequested(s, replies[j])
  {
    if k > 0 {
      CallLogContents(s, replies, k - 1);
    }
  }

  /** No call appears twice in a log. */
  predicate NoRepeats(log: seq<ProviderCall>) {
    forall p, q :: 0 <= p < q < |log| ==> log[p] != log[q]
  }

  /** In a log without repeats, a call occurs once when it occurs at all. */
  lemma {:induction false} OnceEach(log: seq<ProviderCall>, c: ProviderCall)
    requires NoRepeats(log)
    ensures multiset(log)[c] == if c in log then 1 else 0
  {
    if log != [] {
      var init := log[..|log| - 1];
      assert NoRepeats(init);
      OnceEach(init, c);
      assert log == init + [log[|log| - 1]];
    }
  }

  /** The calls for the first `k` images concern those images only, and none is repeated. */
  lemma {:induction false} CallLogNoRepeats(s: Settings, replies: seq<ItemReplies>, k: nat)
    requires k <= |replies|
    ensures forall p :: 0 <= p < |CallLog(s, replies, k)| ==> CallLog(s, replies, k)[p].index < k
    ensures NoRepeats(CallLog(s, replies, k))
  {
    if k > 0 {
      CallLogNoRepeats(s, replies, k - 1);
      assert CallLog(s, replies, k) == CallLog(s, replies, k - 1) + ItemCalls(s, k - 1, replies[k - 1]);
    }
  }

  /**
   * Each processed image is scored exactly once and annotated at most once,
   * exactly when its score reached the threshold; nothing else is called.
   */
  lemma {:induction false} CallLogCounts(s: Settings, replies: seq<ItemReplies>, k: nat, j: nat)
    requires k <= |replies|
    ensures multiset(CallLog(s, replies, k))[ScoreCall(j)] == if j < k then 1 else 0
    ensures multiset(CallLog(s, replies, k))[AnnotateCall(j)] ==
            if j < k && AnnotationRequested(s, replies[j]) then 1 else 0
  {
    CallLogContents(s, replies, k);
    CallLogNoRepeats(s, replies, k);
    OnceEach(CallLog(s, replies, k), ScoreCall(j));
    OnceEach(CallLog(s, replies, k), AnnotateCall(j));
  }

  /**
   * The provider calls of a run: every processed image is scored, only those
   * at or above the threshold are annotated, so a Rejected result never had an
   * annotation requested, and no image past the stop point is touched.
   */
  lemma RunCalls(s: Settings, images: seq<ImageFile>, replies: seq<ItemReplies>, stopReads: seq<bool>)
    requires |replies| == |images| == |stopReads|
    ensures var k := StopPoint(stopReads);
            var log := CallLog(s, replies, k);
            var rs := Processed(s, images, replies, k);
            (forall j: nat :: ScoreCall(j) in log <==> j < k)
            && (forall j: nat :: AnnotateCall(j) in log <==> j < k && AnnotationRequested(s, replies[j]))
            && (forall j :: 0 <= j < k && rs[j].status == Rejected ==> AnnotateCall(j) !in log)
            && (forall j :: 0 <= j < k && rs[j].status == Accepted ==> AnnotateCall(j) in log)
  {
    var k := StopPoint(stopReads);
    var rs := Processed(s, images, replies, k);
    CallLogContents(s, replies, k);
    ProcessedAt(s, images, replies, k);
    forall j | 0 <= j < k
      ensures rs[j].status == Rejected ==> !AnnotationRequested(s, replies[j])
      ensures rs[j].status == Accepted ==> AnnotationRequested(s, replies[j])
    {
      JudgeRules(images[j], Scored(s, replies[j]), Annotated(s, replies[j]), s.threshold);
    }
  }

  /**
   * The stop flag as the loop actually sees it: one value captured when the
   * handler was created, read at every check. Set, it ends the run before the
   * first image; clear, every image is processed and the progress is cleared.
   */
  lemma CapturedStopFlag(s: Settings, images: seq<ImageFile>, replies: seq<ItemReplies>, stopReads: seq<bool>,
                         flag: bool)
    requires |replies| == |images| == |stopReads| && |images| > 0
    requires forall j :: 0 <= j < |stopReads| ==> stopReads[j] == flag
    ensures flag ==> Processed(s, images, replies, StopPoint(stopReads)) == []
                     && FinalProgress(s, images, replies, stopReads, flag) == Stopped
    ensures !flag ==> |Processed(s, images, replies, StopPoint(stopReads))| == |images|
                      && FinalProgress(s, images, replies, stopReads, flag) == Cleared
  {
  }

  lemma PrefixesSnoc(rs: seq<ImageResult>, r: ImageResult)
    ensures Prefixes(rs + [r]) == Prefixes(rs) + [rs + [r]]
  {
    assert (rs + [r])[..|rs|] == rs;
  }

  // ---------------------------------------------------------------- scenarios

  /**
   * Three images at threshold 0.8 scoring 0.9, 0.5 and 0.95, with annotations
   * succeeding: Accepted, Rejected, Accepted, and annotation requested for the
   * first and the third image only.
   */
  lemma ThreeImageScenario(s: Settings, images: seq<ImageFile>, replies: seq<ItemReplies>, reasons: seq<string>)
    requires |images| == |replies| == |reasons| == 3 && s.threshold == 0.8
    requires Scored(s, replies[0]) == Ok(ScoreResponse(Some(0.9), Some(reasons[0])))
    requires Scored(s, replies[1]) == Ok(ScoreResponse(Some(0.5), Some(reasons[1])))
    requires Scored(s, replies[2]) == Ok(ScoreResponse(Some(0.95), Some(reasons[2])))
    requires Annotated(s, replies[0]).Ok? && Annotated(s, replies[2]).Ok?
    ensures var rs := Processed(s, images, replies, 3);
            rs[0].status == Accepted && rs[1].status == Rejected && rs[2].status == Accepted
    ensures CallLog(s, replies, 3) == [ScoreCall(0), AnnotateCall(0), ScoreCall(1), ScoreCall(2), AnnotateCall(2)]
  {
    ProcessedAt(s, images, replies, 3);
    assert AnnotationRequested(s, replies[0]) && !AnnotationRequested(s, replies[1]) && AnnotationRequested(s, replies[2]);
    var c0, c1, c2 := ItemCalls(s, 0, replies[0]), ItemCalls(s, 1, replies[1]), ItemCalls(s, 2, replies[2]);
    assert c0 == [ScoreCall(0), AnnotateCall(0)];
    assert c1 == [ScoreCall(1)];
    assert c2 == [ScoreCall(2), AnnotateCall(2)];
    assert CallLog(s, replies, 1) == c0;
    assert CallLog(s, replies, 2) == c0 + c1;
    assert CallLog(s, replies, 3) == c0 + c1 + c2;
  }

  /**
   * LM Studio answering HTTP 500 to the second of three scoring requests: that
   * image becomes an Error whose reason names the status, and the images on
   * either side are judged as usual.
   */
  lemma ServerErrorScenario(s: Settings, images: seq<ImageFile>, replies: seq<ItemReplies>, body: string)
    requires |images| == |replies| == 3 && s.model == LMStudio
    requires replies[1].scoring.server == NotOk(500, body)
    ensures var rs := Processed(s, images, replies, 3);
            rs[1].status == Error && rs[1].score == None
            && rs[1].reason == Some(LmStudioFailurePrefix + "500: " + body)
            && rs[0] == ItemOutcome(s, images[0], replies[0])
            && rs[2] == ItemOutcome(s, images[2], replies[2])
  {
    var m := LmStudioFailure(500, body);
    StatusFiveHundred(body);
    ProcessedAt(s, images, replies, 3);
    assert Scored(s, replies[1]) == Failed(m);
    assert m != "";
    assert ErrorReason(m) == m;
  }

  /** The failure message for HTTP 500 spells the status out. */
  lemma StatusFiveHundred(body: string)
    ensures LmStudioFailure(500, body) == LmStudioFailurePrefix + "500: " + body
  {
    var five := NatToString(5);
    var fifty := NatToString(50);
    assert five == "5";
    assert fifty == five + [DigitChar(0)];
    assert NatToString(500) == fifty + [DigitChar(0)];
  }

  /** A stop seen before the second of five images leaves exactly one result and the calls of the first image. */
  lemma StopAfterFirstScenario(s: Settings, images: seq<ImageFile>, replies: seq<ItemReplies>, stopReads: seq<bool>)
    requires |images| == |replies| == |stopReads| == 5
    requires !stopReads[0] && stopReads[1]
    ensures |Processed(s, images, replies, StopPoint(stopReads))| == 1
    ensures CallLog(s, replies, StopPoint(stopReads)) == ItemCalls(s, 0, replies[0])
    ensures FinalProgress(s, images, replies, stopReads, true) == Stopped
  {
    assert StopPoint(stopReads) == 1 by {
      assert stopReads[1..][0];
    }
  }

  // ---------------------------------------------------------------- queueing files

  const ImageMimeTypes := ["image/jpeg", "image/png", "image/webp"]

  predicate IsImage(f: File) {
    f.mimeType in ImageMimeTypes
  }

  /** The id of a queued image: its file name, a dash and its modification time. */
  function ImageId(f: File): (id: string)
    ensures |id| > |f.name| + 1 && id[..|f.name| + 1] == f.name + "-"
    ensures id[|f.name| + 1..] == IntToString(f.lastModified)
  {
    f.name + "-" + IntToString(f.lastModified)
  }

  /** Two files with the same name get the same id only when they have the same modification time. */
  lemma ImageIdInjective(f: File, g: File)
    requires f.name == g.name && ImageId(f) == ImageId(g)
    ensures f.lastModified == g.lastModified
  {
    var n := |f.name| + 1;
    assert ImageId(f)[n..] == IntToString(f.lastModified);
    assert ImageId(g)[n..] == IntToString(g.lastModified);
    IntToStringInjective(f.lastModified, g.lastModified);
  }

  /** The queue entry made for a selected file: its id, the file and its object URL. */
  function Queued(f: File, url: string): ImageFile {
    ImageFile(ImageId(f), f, url)
  }

  /**
   * The images queued from a selection: the files of an accepted image type,
   * in selection order, each with its id and the object URL made for it.
   */
  function SelectImages(files: seq<File>, urls: seq<string>): (images: seq<ImageFile>)
    requires |files| == |urls|
    ensures |images| <= |files|
  {
    if files == [] then []
    else
      var rest := SelectImages(files[1..], urls[1..]);
      if IsImage(files[0]) then [Queued(files[0], urls[0])] + rest else rest
  }

  /** Every queued entry is an image file carrying the id made from it. */
  lemma {:induction false} SelectedAreImages(files: seq<File>, urls: seq<string>)
    requires |files| == |urls|
    ensures forall im :: im in SelectImages(files, urls) ==> IsImage(im.file) && im.id == ImageId(im.file)
  {
    if files != [] {
      SelectedAreImages(files[1..], urls[1..]);
    }
  }

  /** Every selected file of an image type is queued, with its own URL. */
  lemma {:induction false} SelectedKeepsImages(files: seq<File>, urls: seq<string>)
    requires |files| == |urls|
    ensures forall i :: 0 <= i < |files| && IsImage(files[i]) ==>
              Queued(files[i], urls[i]) in SelectImages(files, urls)
  {
    if files != [] {
      SelectedKeepsImages(files[1..], urls[1..]);
      forall i | 1 <= i < |files| && IsImage(files[i])
        ensures Queued(files[i], urls[i]) in SelectImages(files, urls)
      {
        assert files[i] == files[1..][i - 1] && urls[i] == urls[1..][i - 1];
      }
    }
  }

  /** Nothing is queued that was not selected: each entry pairs a selected file with its URL. */
  lemma {:induction false} SelectedComeFromFiles(files: seq<File>, urls: seq<string>)
    requires |files| == |urls|
    ensures forall im :: im in SelectImages(files, urls) ==>
              exists i :: 0 <= i < |files| && files[i] == im.file && urls[i] == im.dataUrl
  {
    if files != [] {
      var rest := SelectImages(files[1..], urls[1..]);
      SelectedComeFromFiles(files[1..], urls[1..]);
      forall im | im in rest
        ensures exists i :: 0 <= i < |files| && files[i] == im.file && urls[i] == im.dataUrl
      {
        var i :| 0 <= i < |files[1..]| && files[1..][i] == im.file && urls[1..][i] == im.dataUrl;
        assert files[i + 1] == im.file && urls[i + 1] == im.dataUrl;
      }
    }
  }

  /** Positions in increasing order: what a filter keeps, it keeps in order and once. */
  predicate Increasing(idx: seq<nat>) {
    forall k, l :: 0 <= k < l < |idx| ==> idx[k] < idx[l]
  }

  /** The positions `xs`, each one further along. */
  function Shifted(xs: seq<nat>): (ys: seq<nat>)
    ensures |ys| == |xs| && forall k :: 0 <= k < |xs| ==> ys[k] == xs[k] + 1
  {
    seq(|xs|, k requires 0 <= k < |xs| => xs[k] + 1)
  }

  lemma ShiftedMember(xs: seq<nat>, j: nat)
    ensures j + 1 in Shifted(xs) <==> j in xs
  {
    if j in xs {
      var k :| 0 <= k < |xs| && xs[k] == j;
      assert Shifted(xs)[k] == j + 1;
    }
  }

  /**
   * The positions kept by a filter over a sequence with one more element in
   * front: those kept from the rest, one further along, after 0 when the
   * front element is kept.
   */
  function ConsPositions(keep: bool, rest: seq<nat>): seq<nat> {
    if keep then [0] + Shifted(rest) else Shifted(rest)
  }

  lemma ConsPositionsIncreasing(keep: bool, rest: seq<nat>, n: nat)
    requires Increasing(rest) && forall k :: 0 <= k < |rest| ==> rest[k] < n
    ensures Increasing(ConsPositions(keep, rest))
    ensures forall k :: 0 <= k < |ConsPositions(keep, rest)| ==> ConsPositions(keep, rest)[k] < n + 1
  {
    var sh := Shifted(rest);
    assert Increasing(sh);
  }

  /** Entry k of the positions: 0 for a kept front element, otherwise an entry of the rest moved one along. */
  lemma ConsPositionsAt(keep: bool, rest: seq<nat>, k: nat)
    requires k < |ConsPositions(keep, rest)|
    ensures keep && k == 0 ==> ConsPositions(keep, rest)[k] == 0
    ensures keep && k > 0 ==> ConsPositions(keep, rest)[k] == rest[k - 1] + 1
    ensures !keep ==> ConsPositions(keep, rest)[k] == rest[k] + 1
  {
  }

  /** Position 0 is kept with the front element; a later one exactly when it was kept in the rest. */
  lemma ConsPositionsMember(keep: bool, rest: seq<nat>, j: nat)
    ensures j in ConsPositions(keep, rest) <==> if j == 0 then keep else j - 1 in rest
  {
    if j > 0 {
      ShiftedMember(rest, j - 1);
    }
  }

  /** The positions of the selected files that `SelectImages` queues. */
  function SelectedIndices(files: seq<File>, urls: seq<string>): seq<nat>
    requires |files| == |urls|
  {
    if files == [] then []
    else
      ConsPositions(IsImage(files[0]), SelectedIndices(files[1..], urls[1..]))
  }

  lemma {:induction false} SelectedIndicesIncreasing(files: seq<File>, urls: seq<string>)
    requires |files| == |urls|
    ensures Increasing(SelectedIndices(files, urls))
    ensures forall k :: 0 <= k < |SelectedIndices(files, urls)| ==> SelectedIndices(files, urls)[k] < |files|
  {
    if files != [] {
      SelectedIndicesIncreasing(files[1..], urls[1..]);
      ConsPositionsIncreasing(IsImage(files[0]), SelectedIndices(files[1..], urls[1..]), |files| - 1);
    }
  }

  lemma {:induction false} SelectedIndicesMembers(files: seq<File>, urls: seq<string>)
    requires |files| == |urls|
    ensures forall j :: 0 <= j < |files| ==> (IsImage(files[j]) <==> j in SelectedIndices(files, urls))
  {
    if files != [] {
      var fs, us := files[1..], urls[1..];
      SelectedIndicesMembers(fs, us);
      forall j | 0 <= j < |files|
        ensures IsImage(files[j]) <==> j in SelectedIndices(files, urls)
      {
        ConsPositionsMember(IsImage(files[0]), SelectedIndices(fs, us), j);
        if j > 0 {
          assert files[j] == fs[j - 1];
        }
      }
    }
  }

  lemma {:induction false} SelectedIndicesPick(files: seq<File>, urls: seq<string>)
    requires |files| == |urls|
    ensures |SelectedIndices(files, urls)| == |SelectImages(files, urls)|
    ensures forall k :: 0 <= k < |SelectedIndices(files, urls)| ==>
              var p := SelectedIndices(files, urls)[k];
              p < |files| && SelectImages(files, urls)[k] == Queued(files[p], urls[p])
  {
    if files != [] {
      var fs, us := files[1..], urls[1..];
      SelectedIndicesPick(fs, us);
      var keep := IsImage(files[0]);
      var ri, rest := SelectedIndices(fs, us), SelectImages(fs, us);
      var idx, images := SelectedIndices(files, urls), SelectImages(files, urls);
      var d := if keep then 1 else 0;
      assert images[d..] == rest;
      forall k | d <= k < |idx|
        ensures idx[k] < |files| && images[k] == Queued(files[idx[k]], urls[idx[k]])
      {
        ConsPositionsAt(keep, ri, k);
        assert images[k] == rest[k - d];
      }
    }
  }

  /**
   * Queueing keeps the selection order and queues each file at most once:
   * entry k is the file at position idx[k] with its id and URL, the positions
   * increase, and they are exactly the positions of image-typed files.
   */
  lemma {:induction false} SelectionOrder(files: seq<File>, urls: seq<string>)
    requires |files| == |urls|
    ensures var idx := SelectedIndices(files, urls);
            var images := SelectImages(files, urls);
            |idx| == |images| && Increasing(idx)
            && (forall k :: 0 <= k < |idx| ==>
                  idx[k] < |files| && images[k] == Queued(files[idx[k]], urls[idx[k]]))
            && (forall j :: 0 <= j < |files| ==> (IsImage(files[j]) <==> j in idx))
  {
    SelectedIndicesIncreasing(files, urls);
    SelectedIndicesMembers(files, urls);
    SelectedIndicesPick(files, urls);
  }

  // ---------------------------------------------------------------- the download archive

  /** The content of one archive entry: the original image file, or text. */
  datatype EntryData = ImageData(file: File) | TextData(text: string)

  datatype ZipEntry = ZipEntry(name: string, data: EntryData)

  /** The Accepted results, in order. */
  function AcceptedResults(results: seq<ImageResult>): (accepted: seq<ImageResult>)
    ensures |accepted| <= |results|
  {
    if results == [] then []
    else
      var rest := AcceptedResults(results[1..]);
      if results[0].status == Accepted then [results[0]] + rest else rest
  }

  /** The filter keeps exactly the Accepted results. */
  lemma {:induction false} AcceptedMembers(results: seq<ImageResult>)
    ensures forall r :: r in AcceptedResults(results) <==> r in results && r.status == Accepted
  {
    if results != [] {
      AcceptedMembers(results[1..]);
      assert results == [results[0]] + results[1..];
    }
  }

  /** The positions of the Accepted results. */
  function AcceptedIndices(results: seq<ImageResult>): seq<nat> {
    if results == [] then []
    else
      ConsPositions(results[0].status == Accepted, AcceptedIndices(results[1..]))
  }

  lemma {:induction false} AcceptedIndicesIncreasing(results: seq<ImageResult>)
    ensures Increasing(AcceptedIndices(results))
    ensures forall k :: 0 <= k < |AcceptedIndices(results)| ==> AcceptedIndices(results)[k] < |results|
  {
    if results != [] {
      AcceptedIndicesIncreasing(results[1..]);
      ConsPositionsIncreasing(results[0].status == Accepted, AcceptedIndices(results[1..]), |results| - 1);
    }
  }

  lemma {:induction false} AcceptedIndicesMembers(results: seq<ImageResult>)
    ensures forall j :: 0 <= j < |results| ==> (results[j].status == Accepted <==> j in AcceptedIndices(results))
  {
    if results != [] {
      var rs := results[1..];
      AcceptedIndicesMembers(rs);
      var keep := results[0].status == Accepted;
      forall j | 0 <= j < |results|
        ensures results[j].status == Accepted <==> j in AcceptedIndices(results)
      {
        ConsPositionsMember(keep, AcceptedIndices(rs), j);
        if j > 0 {
          assert results[j] == rs[j - 1];
        }
      }
    }
  }

  lemma {:induction false} AcceptedIndicesPick(results: seq<ImageResult>)
    ensures |AcceptedIndices(results)| == |AcceptedResults(results)|
    ensures forall k :: 0 <= k < |AcceptedIndices(results)| ==>
              AcceptedIndices(results)[k] < |results| && AcceptedResults(results)[k] == results[AcceptedIndices(results)[k]]
  {
    if results != [] {
      var rs := results[1..];
      AcceptedIndicesPick(rs);
      var keep := results[0].status == Accepted;
      var ri, rest := AcceptedIndices(rs), AcceptedResults(rs);
      var idx, accepted := AcceptedIndices(results), AcceptedResults(results);
      var d := if keep then 1 else 0;
      assert accepted[d..] == rest;
      forall k | d <= k < |idx|
        ensures idx[k] < |results| && accepted[k] == results[idx[k]]
      {
        ConsPositionsAt(keep, ri, k);
        assert accepted[k] == rest[k - d];
      }
    }
  }

  /**
   * The filter keeps the Accepted results in order and each once: entry k is
   * the result at position idx[k], the positions increase, and they are
   * exactly the positions of Accepted results.
   */
  lemma {:induction false} AcceptedOrder(results: seq<ImageResult>)
    ensures var idx := AcceptedIndices(results);
            var accepted := AcceptedResults(results);
            |idx| == |accepted| && Increasing(idx)
            && (forall k :: 0 <= k < |idx| ==> idx[k] < |results| && accepted[k] == results[idx[k]])
            && (forall j :: 0 <= j < |results| ==> (results[j].status == Accepted <==> j in idx))
  {
    AcceptedIndicesIncreasing(results);
    AcceptedIndicesMembers(results);
    AcceptedIndicesPick(results);
  }

  /** The count shown on the download button. */
  function AcceptedCount(results: seq<ImageResult>): nat {
    |AcceptedResults(results)|
  }

  /** The values of a sequence of positions. */
  function Elements(idx: seq<nat>): set<nat> {
    set x | x in idx
  }

  lemma IncreasingTail(idx: seq<nat>)
    requires idx != [] && Increasing(idx)
    ensures Increasing(idx[1..]) && idx[0] !in idx[1..]
  {
    var rest := idx[1..];
    forall k, l | 0 <= k < l < |rest|
      ensures rest[k] < rest[l]
    {
      assert rest[k] == idx[k + 1] && rest[l] == idx[l + 1];
    }
  }

  /** Increasing positions are all different, so there are as many as their values. */
  lemma {:induction false} IncreasingCard(idx: seq<nat>)
    requires Increasing(idx)
    ensures |Elements(idx)| == |idx|
  {
    if idx != [] {
      var rest := idx[1..];
      IncreasingTail(idx);
      IncreasingCard(rest);
      assert Elements(idx) == Elements(rest) + {idx[0]};
    } else {
      assert Elements(idx) == {};
    }
  }

  /** The count on the download button is the number of positions holding an Accepted result. */
  lemma AcceptedCountIsCount(results: seq<ImageResult>)
    ensures AcceptedCount(results) == |set j | 0 <= j < |results| && results[j].status == Accepted|
  {
    AcceptedOrder(results);
    var idx := AcceptedIndices(results);
    IncreasingCard(idx);
    assert (set j | 0 <= j < |results| && results[j].status == Accepted) == Elements(idx);
  }

  /** The sidecar name: the file name up to its last '.', then ".txt". */
  function SidecarName(name: string): string {
    Substring(name, 0, LastIndexOf(name, '.')) + ".txt"
  }

  /** Every sidecar name ends in ".txt", whatever the image name. */
  lemma SidecarExtension(name: string)
    ensures var txt := SidecarName(name);
            |txt| >= 4 && txt[|txt| - 4..] == ".txt"
  {
    var stem := Substring(name, 0, LastIndexOf(name, '.'));
    assert (stem + ".txt")[|stem|..] == ".txt";
  }

  /** The extension after the last '.' is replaced; earlier dots stay in the name. */
  lemma SidecarOfDotted(base: string, ext: string)
    requires '.' !in ext
    ensures SidecarName(base + "." + ext) == base + ".txt"
  {
    var name := base + "." + ext;
    assert name[|base|] == '.';
    assert forall k :: |base| < k < |name| ==> name[k] == ext[k - |base| - 1];
    assert LastIndexOf(name, '.') == |base|;
    assert name[..|base|] == base;
  }

  /**
   * Images that differ only in their extension share one sidecar name, so
   * their two `zip.file` calls write the same archive entry.
   */
  lemma SidecarsCollide(base: string, ext1: string, ext2: string)
    requires '.' !in ext1 && '.' !in ext2
    ensures SidecarName(base + "." + ext1) == SidecarName(base + "." + ext2)
  {
    SidecarOfDotted(base, ext1);
    SidecarOfDotted(base, ext2);
  }

  /** A name without any '.' gives a sidecar named exactly ".txt". */
  lemma SidecarOfUndotted(name: string)
    requires '.' !in name
    ensures SidecarName(name) == ".txt"
  {
    assert LastIndexOf(name, '.') == -1;
  }

  /** The two archive entries of one accepted image: the image itself, then its annotation text. */
  function EntriesFor(r: ImageResult): seq<ZipEntry> {
    [ZipEntry(r.file.name, ImageData(r.file)), ZipEntry(SidecarName(r.file.name), TextData(r.annotation.GetOr("")))]
  }

  /** The archive for a list of accepted results: two entries per result, in order. */
  function ArchiveEntries(accepted: seq<ImageResult>): (entries: seq<ZipEntry>)
    ensures |entries| == 2 * |accepted|
  {
    if accepted == [] then []
    else ArchiveEntries(accepted[..|accepted| - 1]) + EntriesFor(accepted[|accepted| - 1])
  }

  /** Entry 2k of the archive is accepted image k, entry 2k+1 its sidecar holding the annotation or nothing. */
  lemma {:induction false} ArchiveLayout(accepted: seq<ImageResult>)
    ensures var entries := ArchiveEntries(accepted);
            forall k :: 0 <= k < |accepted| ==>
              entries[2 * k] == ZipEntry(accepted[k].file.name, ImageData(accepted[k].file))
              && entries[2 * k + 1] == ZipEntry(SidecarName(accepted[k].file.name),
                                                TextData(accepted[k].annotation.GetOr("")))
  {
    if accepted != [] {
      var init := accepted[..|accepted| - 1];
      ArchiveLayout(init);
      assert forall k :: 0 <= k < |init| ==> accepted[k] == init[k];
    }
  }

  /** Extending the archived prefix by one result appends that result's two entries. */
  lemma ArchiveStep(accepted: seq<ImageResult>, i: nat)
    requires i < |accepted|
    ensures ArchiveEntries(accepted[..i + 1]) == ArchiveEntries(accepted[..i]) + EntriesFor(accepted[i])
  {
    assert accepted[..i + 1][..i] == accepted[..i];
  }

  /**
   * The archive of a result list: empty exactly when nothing was accepted,
   * otherwise one image entry per accepted result, so the number of images
   * downloaded is the count on the button.
   */
  lemma ArchiveOfResults(results: seq<ImageResult>)
    ensures var entries := ArchiveEntries(AcceptedResults(results));
            (entries == [] <==> forall r :: r in results ==> r.status != Accepted)
            && |entries| == 2 * AcceptedCount(results)
  {
    var accepted := AcceptedResults(results);
    AcceptedMembers(results);
    if accepted != [] {
      assert accepted[0] in accepted;
    }
  }

  // ---------------------------------------------------------------- connection state

  /** Where the cloud key came from: not yet decided (null), the environment, or the user. */
  datatype KeySource = NoSource | EnvSource | UserSource

  /** Which request a validation makes: the server discovery, the key probe, or none. */
  datatype Check = ServerCheck | KeyProbe | NoCheck

  datatype Connection = Connection(isValid: bool, models: seq<string>, source: KeySource, apiKey: string, check: Check)

  /**
   * The validation effect: LM Studio is checked against its server; a cloud
   * key from the environment is probed and, if it fails, dropped in favour of
   * user input; a user key is probed unless it is blank; otherwise the
   * connection is invalid without any request.
   */
  function DecideConnection(model: GeminiModel, source: KeySource, apiKey: string, url: string,
                            server: ServerReply<Option<seq<string>>>, probe: SdkReply<string>): (c: Connection)
    ensures model.IsLocal() ==>
              c.source == source && c.apiKey == apiKey && c.check != KeyProbe
              && c.isValid == ValidateLmStudioServer(url, server).isValid
              && c.models == ValidateLmStudioServer(url, server).models
    ensures !model.IsLocal() ==> c.models == [] && c.check != ServerCheck
    ensures c.isValid ==> c.check != NoCheck
    ensures c.check == KeyProbe ==> c.isValid == probe.SdkOk?
    ensures !model.IsLocal() && source == EnvSource && apiKey != "" ==>
              c.check == KeyProbe && (c.isValid || (c.source == UserSource && c.apiKey == ""))
    ensures (c.source, c.apiKey) != (source, apiKey) ==>
              source == EnvSource && c.source == UserSource && c.apiKey == "" && !c.isValid
    ensures !model.IsLocal() && source == UserSource && Trim(apiKey) == "" ==> !c.isValid && c.check == NoCheck
    ensures !model.IsLocal() && source == UserSource && Trim(apiKey) != "" ==>
              c.check == KeyProbe && c.isValid == probe.SdkOk? && c.source == source && c.apiKey == apiKey
    ensures !model.IsLocal() && source == EnvSource && apiKey == "" ==> !c.isValid && c.check == NoCheck
    ensures !model.IsLocal() && source == NoSource ==> !c.isValid && c.check == NoCheck
  {
    if model.IsLocal() then
      var status := ValidateLmStudioServer(url, server);
      Connection(status.isValid, status.models, source, apiKey, if url != "" then ServerCheck else NoCheck)
    else if source == EnvSource && apiKey != "" then
      var valid := ValidateApiKey(apiKey, probe);
      if valid then Connection(true, [], source, apiKey, KeyProbe)
      else Connection(false, [], UserSource, "", KeyProbe)
    else if source == UserSource && Trim(apiKey) != "" then
      Connection(ValidateApiKey(apiKey, probe), [], source, apiKey, KeyProbe)
    else Connection(false, [], source, apiKey, NoCheck)
  }

  /** The environment key: the first of the two variables that is set and non-empty. */
  function EnvKey(apiKeyVar: string, geminiKeyVar: string): (key: string)
    ensures key == "" <==> apiKeyVar == "" && geminiKeyVar == ""
    ensures apiKeyVar != "" ==> key == apiKeyVar
    ensures apiKeyVar == "" ==> key == geminiKeyVar
  {
    if apiKeyVar != "" then apiKeyVar else geminiKeyVar
  }
}
