/** The shared vocabulary of the curator: the enums and records of types.ts. */
module Types {

  datatype Option<+T> = None | Some(value: T) {
    function GetOr(default: T): T {
      match this
      case Some(v) => v
      case None => default
    }
  }

  /** The model selector: two cloud models and a local LM Studio server. */
  datatype GeminiModel = GeminiFlash | GeminiPro | LMStudio {
    /** Only the LM Studio model talks to the local server; the others use the cloud SDK. */
    predicate IsLocal() {
      this == LMStudio
    }
  }

  datatype AnnotationType = Caption | Tags

  /** Pending is part of the type but the analysis loop never produces it. */
  datatype ImageStatus = Pending | Accepted | Rejected | Error

  /** The browser File handle, reduced to the attributes the core reads; its bytes are not modelled. */
  datatype File = File(name: string, mimeType: string, lastModified: int)

  datatype ImageFile = ImageFile(id: string, file: File, dataUrl: string)

  /** An ImageResult repeats every ImageFile field (the source builds it with `{...image, ...}`). */
  datatype ImageResult = ImageResult(
    id: string,
    file: File,
    dataUrl: string,
    status: ImageStatus,
    score: Option<real>,
    reason: Option<string>,
    annotation: Option<string>)
  {
    /** The image this result was built from. */
    function Image(): ImageFile {
      ImageFile(id, file, dataUrl)
    }
  }

  /**
   * The object a scoring call yields, as its two fields read after
   * `JSON.parse`: a field the parsed object lacks reads as `undefined`, here
   * `None`.
   */
  datatype ScoreResponse = ScoreResponse(score: Option<real>, reason: Option<string>)

  /** A result built from `image` by spreading it and adding the other fields. */
  function Spread(image: ImageFile, status: ImageStatus, score: Option<real>, reason: Option<string>,
                  annotation: Option<string>): (r: ImageResult)
    ensures r.Image() == image && r.status == status
    ensures r.score == score && r.reason == reason && r.annotation == annotation
  {
    ImageResult(image.id, image.file, image.dataUrl, status, score, reason, annotation)
  }
}
