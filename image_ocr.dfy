/**
 * The image adapter, `extract_text_from_image` in server.py. The OCR engine
 * and the image decoder are not modelled: what they answer for a given image
 * file is an input (`ImageFile`), and the project directory and the
 * existence of the joined path are parameters.
 */
module ImageOcr {
  import opened Wrappers
  import opened Text

  /** What an engine call gave back: a value, or the message of the
      exception it raised. */
  datatype Answer<T> = Raised(message: string) | Answered(value: T)

  /** A decoded image as the adapter sees it: its colour mode and size. */
  datatype Picture = Picture(mode: string, width: nat, height: nat)

  /** An image file under the project directory: either it cannot be
      decoded, or it is a picture together with the engine's answers for it,
      the text `image_to_string` recognises and the per-token confidences
      from the `conf` column of `image_to_data`. */
  datatype ImageFile =
    | Undecodable(message: string)
    | Decoded(picture: Picture, recognized: Answer<string>, confidences: Answer<seq<int>>)

  /** The dictionary the tool returns, one constructor per shape. */
  datatype ImageResult =
    | ImageOk(text: string, language: string, imagePath: string,
              width: nat, height: nat, averageConfidence: real, wordCount: nat)
    | ImageNotFound(error: string, text: string)
    | ImageFailed(error: string, text: string, imagePath: string)

  const NoProjectDir: string := "Project directory has not been set"
  const ImageNotFoundPrefix: string := "Datei nicht gefunden: "

  /** The colour mode handed to the engine: `RGB` and `L` are kept, every
      other mode is converted to `RGB`. */
  function NormalizeMode(mode: string): (m: string)
    ensures m == "RGB" || m == "L"
    ensures m == mode <==> (mode == "RGB" || mode == "L")
    ensures mode != "RGB" && mode != "L" ==> m == "RGB"
  {
    if mode == "RGB" || mode == "L" then mode else "RGB"
  }

  /** Normalising twice is normalising once. */
  lemma NormalizeModeIdempotent(mode: string)
    ensures NormalizeMode(NormalizeMode(mode)) == NormalizeMode(mode)
  {
  }

  /** The confidences the average is taken over: those strictly greater
      than 0, in their original order. */
  function PositiveConfidences(confs: seq<int>): (ps: seq<int>)
    ensures |ps| <= |confs|
    ensures forall k :: 0 <= k < |ps| ==> ps[k] > 0
    ensures forall c :: c > 0 ==> multiset(ps)[c] == multiset(confs)[c]
  {
    if confs == [] then []
    else
      assert confs == [confs[0]] + confs[1..];
      (if confs[0] > 0 then [confs[0]] else []) + PositiveConfidences(confs[1..])
  }

  function Sum(xs: seq<int>): int {
    if xs == [] then 0 else xs[0] + Sum(xs[1..])
  }

  /** `sum(scores) / len(scores)` over the positive confidences, or 0 when
      there are none. It is 0 exactly when no confidence is positive, and it
      stays within 100 when the engine's confidences do. */
  function AverageConfidence(confs: seq<int>): (avg: real)
    ensures avg >= 0.0
    ensures avg == 0.0 <==> forall k :: 0 <= k < |confs| ==> confs[k] <= 0
    ensures (forall k :: 0 <= k < |confs| ==> confs[k] <= 100) ==> avg <= 100.0
  {
    var ps := PositiveConfidences(confs);
    if ps == [] then
      NoPositive(confs);
      0.0
    else
      SumBounds(ps, 1, Max(ps));
      MeanBounds(Sum(ps), |ps|, 1, Max(ps));
      SomePositive(confs);
      MaxAtMost(ps, confs, 100);
      (Sum(ps) as real) / (|ps| as real)
  }

  function Max(xs: seq<int>): (m: int)
    requires xs != []
    ensures forall k :: 0 <= k < |xs| ==> xs[k] <= m
    ensures m in xs
  {
    if |xs| == 1 then xs[0]
    else
      var m := Max(xs[1..]);
      if xs[0] >= m then xs[0] else m
  }

  /** Every element between `lo` and `hi` puts the sum between `lo` and
      `hi` times the length. */
  lemma {:induction false} SumBounds(xs: seq<int>, lo: int, hi: int)
    requires forall k :: 0 <= k < |xs| ==> lo <= xs[k] <= hi
    ensures lo * |xs| <= Sum(xs) <= hi * |xs|
  {
    if xs != [] {
      SumBounds(xs[1..], lo, hi);
    }
  }

  lemma MeanBounds(s: int, n: nat, lo: int, hi: int)
    requires n > 0 && lo * n <= s <= hi * n
    ensures lo as real <= (s as real) / (n as real) <= hi as real
  {
  }

  lemma {:induction false} NoPositive(confs: seq<int>)
    requires PositiveConfidences(confs) == []
    ensures forall k :: 0 <= k < |confs| ==> confs[k] <= 0
  {
    if confs != [] {
      NoPositive(confs[1..]);
      assert forall k :: 1 <= k < |confs| ==> confs[k] == confs[1..][k - 1];
    }
  }

  lemma SomePositive(confs: seq<int>)
    requires PositiveConfidences(confs) != []
    ensures exists k :: 0 <= k < |confs| && confs[k] > 0
  {
    var ps := PositiveConfidences(confs);
    assert ps[0] in multiset(ps);
    assert ps[0] in multiset(confs);
  }

  lemma MaxAtMost(ps: seq<int>, confs: seq<int>, hi: int)
    requires ps != [] && ps == PositiveConfidences(confs)
    ensures (forall k :: 0 <= k < |confs| ==> confs[k] <= hi) ==> Max(ps) <= hi
  {
    var m := Max(ps);
    assert m in multiset(ps);
    assert m in multiset(confs);
  }

  /** The average lies between any bounds on the positive confidences; in
      particular between the smallest and the largest of them. */
  lemma AverageBounds(confs: seq<int>, lo: int, hi: int)
    requires exists k :: 0 <= k < |confs| && confs[k] > 0
    requires forall k :: 0 <= k < |confs| && confs[k] > 0 ==> lo <= confs[k] <= hi
    ensures lo as real <= AverageConfidence(confs) <= hi as real
  {
    var ps := PositiveConfidences(confs);
    forall k | 0 <= k < |ps| ensures lo <= ps[k] <= hi {
      assert ps[k] in multiset(ps);
      assert ps[k] in multiset(confs);
    }
    if ps == [] {
      NoPositive(confs);
    } else {
      SumBounds(ps, lo, hi);
      MeanBounds(Sum(ps), |ps|, lo, hi);
    }
  }

  /** `extract_text_from_image`: the two guards, then decoding and OCR. The
      returned text is the stripped recognition, the word count is taken on
      the unstripped one and still counts the tokens of the returned text, and
      a failure of `image_to_data` only zeroes the confidence. */
  function ExtractTextFromImage(root: Option<string>, imagePath: string, language: string,
                                fileExists: bool, file: ImageFile): (r: ImageResult)
    ensures !r.ImageOk? ==> r.text == ""
    ensures root.None? ==> r == ImageFailed(NoProjectDir, "", imagePath)
    ensures root.Some? && !fileExists ==> r == ImageNotFound(ImageNotFoundPrefix + imagePath, "")
    ensures r.ImageOk? <==> root.Some? && fileExists && file.Decoded? && file.recognized.Answered?
    ensures r.ImageOk? ==>
      && r.text == Strip(file.recognized.value)
      && r.wordCount == WordCount(r.text)
      && r.imagePath == imagePath && r.language == language
      && r.width == file.picture.width && r.height == file.picture.height
      && r.averageConfidence == (if file.confidences.Raised? then 0.0
                                 else AverageConfidence(file.confidences.value))
  {
    if root.None? then ImageFailed(NoProjectDir, "", imagePath)
    else if !fileExists then ImageNotFound(ImageNotFoundPrefix + imagePath, "")
    else
      match file
      case Undecodable(message) => ImageFailed(message, "", imagePath)
      case Decoded(picture, recognized, confidences) =>
        match recognized
        case Raised(message) => ImageFailed(message, "", imagePath)
        case Answered(raw) =>
          var average := match confidences
            case Raised(_) => 0.0
            case Answered(confs) => AverageConfidence(confs);
          SplitStrip(raw);
          ImageOk(Strip(raw), language, imagePath, picture.width, picture.height,
                  average, WordCount(raw))
  }

  /** When the project directory is unset or the file is missing, nothing
      about the file is looked at: the result is a failure with empty text
      whatever the file holds. */
  lemma ImageGuards(root: Option<string>, imagePath: string, language: string,
                    fileExists: bool, file1: ImageFile, file2: ImageFile)
    requires root.None? || !fileExists
    ensures ExtractTextFromImage(root, imagePath, language, fileExists, file1)
         == ExtractTextFromImage(root, imagePath, language, fileExists, file2)
    ensures !ExtractTextFromImage(root, imagePath, language, fileExists, file1).ImageOk?
    ensures ExtractTextFromImage(root, imagePath, language, fileExists, file1).text == ""
  {
  }
}
