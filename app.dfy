/**
 * The App component's state and handlers. Each piece of React state is a
 * field; each handler is a method that updates the fields as the state
 * setters would once the render settles. Replies from the providers, the
 * stop-flag reads of a run, the environment variables and the object URLs
 * are parameters.
 */
module App {
  import opened Types
  import opened JsText
  import opened GeminiService
  import opened Curation

  const DefaultLmStudioUrl := "http://localhost:1234"
  const DefaultThreshold := 0.80

  class Curator {
    var apiKey: string
    var concept: string
    var annotationType: AnnotationType
    var model: GeminiModel
    var lmStudioUrl: string
    var threshold: real
    var images: seq<ImageFile>
    var results: seq<ImageResult>
    var isLoading: bool
    var isStopping: bool
    /** The progress line, kept as which message it is; `Text()` renders it. */
    var progress: Progress
    var apiKeySource: KeySource
    /** `null` while a validation is pending or before the first one, then its verdict. */
    var isApiValid: Option<bool>
    var isApiLoading: bool
    var lmStudioModels: seq<string>

    /** Every value the result list has been given, in order. */
    ghost var published: seq<seq<ImageResult>>
    /** Every adapter call made by the runs so far, in order. */
    ghost var calls: seq<ProviderCall>

    /** The results always describe a prefix of the queue: result j is the finished judgement of image j. */
    ghost predicate Valid()
      reads this`images, this`results
    {
      |results| <= |images|
      && forall j :: 0 <= j < |results| ==> results[j].Image() == images[j] && WellFormed(results[j])
    }

    constructor()
      ensures apiKey == "" && concept == "" && annotationType == Caption && model == GeminiFlash
      ensures lmStudioUrl == DefaultLmStudioUrl && threshold == DefaultThreshold
      ensures images == [] && results == [] && !isLoading && !isStopping && progress == Cleared
      ensures apiKeySource == NoSource && isApiValid == None && isApiLoading && lmStudioModels == []
      ensures published == [] && calls == []
      ensures Valid()
    {
      apiKey, concept, annotationType, model := "", "", Caption, GeminiFlash;
      lmStudioUrl, threshold := DefaultLmStudioUrl, DefaultThreshold;
      images, results, isLoading, isStopping, progress := [], [], false, false, Cleared;
      apiKeySource, isApiValid, isApiLoading, lmStudioModels := NoSource, None, true, [];
      published, calls := [], [];
    }

    /** The settings a run reads. */
    function Snapshot(): Settings
      reads this`apiKey, this`concept, this`annotationType, this`model, this`lmStudioUrl, this`threshold
    {
      Settings(apiKey, concept, annotationType, model, lmStudioUrl, threshold)
    }

    /**
     * The guard on the Analyze button: a run may start only after a successful
     * validation, with images queued and a concept that is not all white space.
     */
    predicate CanAnalyze()
      reads this
      ensures CanAnalyze() <==> isApiValid == Some(true) && |images| > 0 && !AllWhiteSpace(concept)
    {
      TrimEmpty(concept);
      isApiValid == Some(true) && |images| > 0 && Trim(concept) != ""
    }

    /**
     * The mount effect: for a cloud model, a key from the environment is
     * adopted; without one the key is left to the user and the connection is
     * invalid until a key is given.
     */
    method InitializeApiKey(apiKeyVar: string, geminiKeyVar: string)
      modifies this`apiKey, this`apiKeySource, this`isApiValid
      ensures model.IsLocal() ==> apiKey == old(apiKey) && apiKeySource == old(apiKeySource) && isApiValid == old(isApiValid)
      ensures !model.IsLocal() && EnvKey(apiKeyVar, geminiKeyVar) != "" ==>
                apiKey == EnvKey(apiKeyVar, geminiKeyVar) && apiKeySource == EnvSource && isApiValid == old(isApiValid)
      ensures !model.IsLocal() && EnvKey(apiKeyVar, geminiKeyVar) == "" ==>
                apiKey == old(apiKey) && apiKeySource == UserSource && isApiValid == Some(false)
    {
      if !model.IsLocal() {
        var envKey := EnvKey(apiKeyVar, geminiKeyVar);
        if envKey != "" {
          apiKey := envKey;
          apiKeySource := EnvSource;
        } else {
          apiKeySource := UserSource;
          isApiValid := Some(false);
        }
      }
    }

    /**
     * The validation effect, as it settles: the verdict, the discovered LM
     * Studio models, and the key and its source after a failed environment
     * key has been dropped.
     */
    method ValidateConnection(server: ServerReply<Option<seq<string>>>, probe: SdkReply<string>)
      modifies this`isApiValid, this`lmStudioModels, this`apiKeySource, this`apiKey, this`isApiLoading
      ensures var c := DecideConnection(model, old(apiKeySource), old(apiKey), lmStudioUrl, server, probe);
              isApiValid == Some(c.isValid) && lmStudioModels == c.models
              && apiKeySource == c.source && apiKey == c.apiKey && !isApiLoading
    {
      isApiLoading := true;
      isApiValid := None;
      lmStudioModels := [];
      var c := DecideConnection(model, apiKeySource, apiKey, lmStudioUrl, server, probe);
      isApiValid := Some(c.isValid);
      lmStudioModels := c.models;
      apiKeySource := c.source;
      apiKey := c.apiKey;
      isApiLoading := false;
    }

    /** Queues the image files of a selection after the ones already queued, and clears the results. */
    method SelectFiles(files: seq<File>, urls: seq<string>)
      requires |files| == |urls|
      modifies this`images, this`results
      ensures images == old(images) + SelectImages(files, urls) && results == []
      ensures Valid()
    {
      images := images + SelectImages(files, urls);
      results := [];
    }

    method ClearImages()
      modifies this`images, this`results
      ensures images == [] && results == [] && Valid()
    {
      images := [];
      results := [];
    }

    /** handleStop: raises the flag the next render sees. */
    method Stop()
      modifies this`isStopping
      ensures isStopping
    {
      isStopping := true;
    }

    /**
     * handleAnalyze. `replies[i]` are the provider replies for image i,
     * `stopReads[i]` the value the stop check sees before image i, and
     * `stopAtEnd` the value the final check sees.
     */
    method Analyze(replies: seq<ItemReplies>, stopReads: seq<bool>, stopAtEnd: bool)
      requires |replies| == |images| == |stopReads|
      requires Valid()
      modifies this`results, this`isLoading, this`isStopping, this`progress, this`published, this`calls
      ensures Valid()
      ensures !old(CanAnalyze()) ==> unchanged(this)
      ensures old(CanAnalyze()) ==>
                results == Processed(old(Snapshot()), images, replies, StopPoint(stopReads))
                && published == old(published) + Prefixes(results)
                && calls == old(calls) + CallLog(old(Snapshot()), replies, StopPoint(stopReads))
                && progress == FinalProgress(old(Snapshot()), images, replies, stopReads, stopAtEnd)
                && !isLoading && !isStopping
    {
      if !CanAnalyze() {
        return;
      }
      Run(Snapshot(), replies, stopReads, stopAtEnd);
    }

    /** The body of handleAnalyze once the guard has passed, with `s` the settings the handler captured. */
    method Run(s: Settings, replies: seq<ItemReplies>, stopReads: seq<bool>, stopAtEnd: bool)
      requires |replies| == |images| == |stopReads|
      modifies this`results, this`isLoading, this`isStopping, this`progress, this`published, this`calls
      ensures Valid()
      ensures results == Processed(s, images, replies, StopPoint(stopReads))
      ensures published == old(published) + Prefixes(results)
      ensures calls == old(calls) + CallLog(s, replies, StopPoint(stopReads))
      ensures progress == FinalProgress(s, images, replies, stopReads, stopAtEnd)
      ensures !isLoading && !isStopping
    {
      Begin();
      ProcessQueue(s, replies, stopReads);
      Finish(stopAtEnd);
      ProcessedWellFormed(s, images, replies, StopPoint(stopReads));
    }

    /** The start of a run: loading begins and the stop flag is lowered. */
    method Begin()
      modifies this`isLoading, this`isStopping
      ensures isLoading && !isStopping
    {
      isLoading := true;
      isStopping := false;
    }

    /** The end of a run: loading stops, the stop flag is lowered, and the progress text is cleared unless a stop was seen. */
    method Finish(stopAtEnd: bool)
      modifies this`isLoading, this`isStopping, this`progress
      ensures !isLoading && !isStopping
      ensures progress == if stopAtEnd then old(progress) else Cleared
    {
      isLoading := false;
      if !stopAtEnd {
        progress := Cleared;
      }
      isStopping := false;
    }

    /**
     * The loop of handleAnalyze: the result list restarts empty and grows by
     * one judged image per iteration until the queue ends or a stop check
     * reads true.
     */
    method ProcessQueue(s: Settings, replies: seq<ItemReplies>, stopReads: seq<bool>)
      requires |replies| == |images| == |stopReads|
      modifies this`results, this`progress, this`published, this`calls
      ensures results == Processed(s, images, replies, StopPoint(stopReads))
      ensures published == old(published) + Prefixes(results)
      ensures calls == old(calls) + CallLog(s, replies, StopPoint(stopReads))
      ensures progress == FinalProgress(s, images, replies, stopReads, true)
    {
      ghost var published0, calls0 := published, calls;
      Restart();
      var k := Iterate(s, replies, stopReads, published0, calls0);
    }

    /** The iterations of the loop, from the restarted list to the stop point `k`. */
    method Iterate(s: Settings, replies: seq<ItemReplies>, stopReads: seq<bool>,
                   ghost published0: seq<seq<ImageResult>>, ghost calls0: seq<ProviderCall>) returns (k: nat)
      requires |replies| == |images| == |stopReads|
      requires Ran(s, replies, 0, published0, calls0)
      modifies this`results, this`progress, this`published, this`calls
      ensures k == StopPoint(stopReads)
      ensures results == Processed(s, images, replies, k)
      ensures published == published0 + Prefixes(results)
      ensures calls == calls0 + CallLog(s, replies, k)
      ensures progress == if k < |images| then Stopped else LoopProgress(s, images, replies, k)
    {
      var n := |images|;
      k := 0;
      while k < n
        invariant k <= n && forall j :: 0 <= j < k ==> !stopReads[j]
        invariant Ran(s, replies, k, published0, calls0)
      {
        if stopReads[k] {
          progress := Stopped;
          StopPointAt(stopReads, k);
          return;
        }
        Advance(s, replies, k, published0, calls0);
        k := k + 1;
      }
      StopPointAt(stopReads, k);
    }

    /**
     * The state after the first `i` images of a run: their results, every
     * list published since the start, the calls made for them, and the
     * progress message of the last of them.
     */
    ghost predicate Ran(s: Settings, replies: seq<ItemReplies>, i: nat, published0: seq<seq<ImageResult>>,
                        calls0: seq<ProviderCall>)
      requires |replies| == |images| && i <= |images|
      reads this`images, this`results, this`published, this`calls, this`progress
    {
      results == Processed(s, images, replies, i)
      && published == published0 + Prefixes(results)
      && calls == calls0 + CallLog(s, replies, i)
      && progress == LoopProgress(s, images, replies, i)
    }

    /** The start of the loop: the result list is emptied and published, and the progress line says the run starts. */
    method Restart()
      modifies this`results, this`published, this`progress
      ensures results == [] && published == old(published) + [[]] && progress == Starting
    {
      results := [];
      published := published + [results];
      progress := Starting;
    }

    /**
     * One iteration of the loop: image `i` is judged and its result appended
     * to the list, which is published again.
     */
    method Advance(s: Settings, replies: seq<ItemReplies>, i: nat, ghost published0: seq<seq<ImageResult>>,
                   ghost calls0: seq<ProviderCall>)
      requires |replies| == |images| && i < |images|
      requires Ran(s, replies, i, published0, calls0)
      modifies this`results, this`progress, this`published, this`calls
      ensures Ran(s, replies, i + 1, published0, calls0)
    {
      var r := ProcessImage(s, i, |images|, images[i], replies[i]);
      PrefixesSnoc(results, r);
      ghost var before := Prefixes(results);
      results := results + [r];
      published := published + [results];
      assert published == published0 + (before + [results]);
    }

    /** One iteration of the run: score image `i` of `n`, annotate it when the score reaches the threshold, judge it. */
    method ProcessImage(s: Settings, i: nat, n: nat, image: ImageFile, replies: ItemReplies) returns (r: ImageResult)
      modifies this`progress, this`calls
      ensures r == ItemOutcome(s, image, replies)
      ensures calls == old(calls) + ItemCalls(s, i, replies)
      ensures progress == ItemProgress(s, i, n, image, replies)
    {
      progress := Scoring(i, n, image.file.name);
      calls := calls + [ScoreCall(i)];
      match GetScoreAndReason(s.apiKey, s.model, replies.scoring) {
        case Failed(m) =>
          r := Spread(image, Error, None, Some(ErrorReason(m)), None);
        case Ok(sr) =>
          if Accepts(sr.score, s.threshold) {
            progress := Annotating(i, n);
            calls := calls + [AnnotateCall(i)];
            match GetAnnotation(s.apiKey, s.annotationType, s.model, replies.annotating) {
              case Failed(m) =>
                r := Spread(image, Error, None, Some(ErrorReason(m)), None);
              case Ok(annotation) =>
                r := Spread(image, Accepted, sr.score, sr.reason, annotation);
            }
          } else {
            r := Spread(image, Rejected, sr.score, sr.reason, None);
          }
      }
    }

    /**
     * handleDownload: nothing happens when no result is Accepted or the zip
     * library is missing; otherwise the archive holds each accepted image
     * followed by its annotation sidecar.
     */
    method Download(zipLoaded: bool) returns (archive: Option<seq<ZipEntry>>)
      ensures archive.Some? <==> AcceptedCount(results) > 0 && zipLoaded
      ensures archive.Some? ==> archive.value == ArchiveEntries(AcceptedResults(results))
    {
      var accepted := AcceptedResults(results);
      if |accepted| == 0 || !zipLoaded {
        return None;
      }
      var entries: seq<ZipEntry> := [];
      var i := 0;
      while i < |accepted|
        invariant i <= |accepted|
        invariant entries == ArchiveEntries(accepted[..i])
      {
        var imageResult := accepted[i];
        var imageName := imageResult.file.name;
        entries := entries + [ZipEntry(imageName, ImageData(imageResult.file)),
                              ZipEntry(SidecarName(imageName), TextData(imageResult.annotation.GetOr("")))];
        ArchiveStep(accepted, i);
        i := i + 1;
      }
      assert accepted[..i] == accepted;
      return Some(entries);
    }
  }
}
