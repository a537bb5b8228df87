/**
 * The input-validation part of the `/transcript` handler in app.py: the
 * checks it makes on the request's `url` before it asks the transcript
 * library for anything.
 */
module TranscriptHandler {

  import opened Wrappers
  import opened Extractor

  /** Error text returned when the request carries no URL, or an empty one. */
  const UrlRequiredMessage: string := "URL is required"

  /** Error text returned when no video ID can be extracted from the URL. */
  const InvalidUrlMessage: string := "Invalid YouTube URL"

  /**
   * The outcome of validation: the request is rejected with an error message
   * (sent with status 400), or it proceeds to the transcript fetch with a
   * video ID.
   */
  datatype Validation = Rejected(error: string) | Proceed(videoId: string)

  /**
   * Validate the `url` field of a request (absent when the field is missing).
   * A missing or empty URL is refused before extraction is attempted; a URL
   * from which no ID is extracted is refused next; otherwise the extracted,
   * non-empty ID goes on to the fetch.
   */
  method ValidateTranscriptRequest(url: Option<string>) returns (v: Validation)
    ensures v == Rejected(UrlRequiredMessage) <==> url.None? || url.value == ""
    ensures v == Rejected(InvalidUrlMessage) <==> url.Some? && url.value != "" && VideoIdOf(url.value).None?
    ensures v.Proceed? <==> url.Some? && VideoIdOf(url.value).Some?
    ensures v.Proceed? ==> VideoIdOf(url.value) == Some(v.videoId) && |v.videoId| > 0
  {
    if url.None? || url.value == "" {
      return Rejected(UrlRequiredMessage);
    }
    var videoId := ExtractVideoId(url.value);
    if videoId.None? || videoId.value == "" {
      return Rejected(InvalidUrlMessage);
    }
    VideoIdShape(url.value, videoId.value);
    return Proceed(videoId.value);
  }
}
