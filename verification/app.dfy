/** The upload check and the file names of the web front end: an uploaded
    name is accepted when the text after its last dot, lower-cased, is one of
    the image extensions; the stored input keeps that extension and the
    output is always a PNG. */
module App {
  import opened Wrappers

  const AllowedExtensions: set<string> := {"png", "jpg", "jpeg"}

  /** The text Python's IndexError carries when `rsplit` finds no dot. */
  const IndexOutOfRange := "list index out of range"

  /** Lower-casing of one character, for the ASCII letters. */
  function LowerChar(c: char): char {
    if 'A' <= c <= 'Z' then (c as int + 32) as char else c
  }

  function Lower(s: string): string {
    seq(|s|, i requires 0 <= i < |s| => LowerChar(s[i]))
  }

  /** Position of the last occurrence of c in s, if any. */
  function LastIndexOf(s: string, c: char): (r: Option<nat>)
    ensures r.None? <==> c !in s
    ensures r.Some? ==> r.value < |s| && s[r.value] == c && c !in s[r.value + 1..]
  {
    if |s| == 0 then None
    else if s[|s| - 1] == c then Some(|s| - 1)
    else LastIndexOf(s[..|s| - 1], c)
  }

  /** `filename.rsplit('.', 1)[1]`: the text after the last dot, or None where
      the split has a single part and indexing it raises. */
  function Extension(filename: string): (ext: Option<string>)
    ensures ext.None? <==> '.' !in filename
    ensures ext.Some? ==>
      && '.' !in ext.value
      && |ext.value| < |filename|
      && filename == filename[..|filename| - |ext.value| - 1] + "." + ext.value
  {
    match LastIndexOf(filename, '.')
    case None => None
    case Some(i) =>
      assert filename == filename[..i] + "." + filename[i + 1..];
      Some(filename[i + 1..])
  }

  /** allowed_file: there is a dot, and the lower-cased text after the last
      dot is an allowed extension. */
  function AllowedFile(filename: string): (ok: bool)
    ensures ok ==> '.' in filename && filename[|filename| - 1] != '.'
  {
    '.' in filename && Lower(Extension(filename).value) in AllowedExtensions
  }

  /** The name the upload is stored under: the request id, a dot and the
      lower-cased extension of the sanitised name. For a sanitised name
      without a dot, indexing the one-part split raises. */
  function InputFilename(uniqueId: string, secured: string): (r: Result<string>)
    ensures r.Failure? <==> '.' !in secured
    ensures r.Failure? ==> r.error == IndexOutOfRange
    ensures r.Success? ==>
      && Extension(r.value) == Some(Lower(Extension(secured).value))
      && r.value == uniqueId + "." + Extension(r.value).value
      && (AllowedFile(r.value) <==> AllowedFile(secured))
  {
    match Extension(secured)
    case None => Failure(IndexOutOfRange)
    case Some(ext) =>
      var name := uniqueId + "." + Lower(ext);
      LowerKeepsDotFree(ext);
      LowerIdempotent(ext);
      ExtensionAfterLastDot(uniqueId, Lower(ext));
      Success(name)
  }

  /** The name the processed image is written under: always a PNG, whatever
      was uploaded, and itself a name the upload check accepts. */
  function OutputFilename(uniqueId: string): (name: string)
    ensures |uniqueId| < |name| && name[..|uniqueId|] == uniqueId
    ensures name[|uniqueId|..] == "_resized.png"
    ensures Extension(name) == Some("png")
    ensures AllowedFile(name)
  {
    var name := uniqueId + "_resized.png";
    assert name == (uniqueId + "_resized") + "." + "png";
    ExtensionAfterLastDot(uniqueId + "_resized", "png");
    assert Lower("png") == "png";
    name
  }

  // ---------------------------------------------------------------------------
  // Lemmas

  lemma LowerIdempotent(s: string)
    ensures Lower(Lower(s)) == Lower(s)
  {
  }

  lemma LowerKeepsDotFree(s: string)
    ensures '.' in Lower(s) <==> '.' in s
  {
    if '.' in s {
      var i :| 0 <= i < |s| && s[i] == '.';
      assert Lower(s)[i] == '.';
    }
    if '.' in Lower(s) {
      var i :| 0 <= i < |Lower(s)| && Lower(s)[i] == '.';
      assert s[i] == '.';
    }
  }

  /** A dot followed by dot-free text is the last dot. */
  lemma {:induction false} LastDotOfConcat(stem: string, ext: string)
    requires '.' !in ext
    ensures LastIndexOf(stem + "." + ext, '.') == Some(|stem|)
    decreases |ext|
  {
    var s := stem + "." + ext;
    if |ext| == 0 {
      assert s[|s| - 1] == '.';
    } else {
      assert s[|s| - 1] == ext[|ext| - 1] != '.';
      assert s[..|s| - 1] == stem + "." + ext[..|ext| - 1];
      LastDotOfConcat(stem, ext[..|ext| - 1]);
    }
  }

  /** Splitting `stem + "." + ext` at the last dot gives back ext. */
  lemma ExtensionAfterLastDot(stem: string, ext: string)
    requires '.' !in ext
    ensures Extension(stem + "." + ext) == Some(ext)
  {
    LastDotOfConcat(stem, ext);
    assert (stem + "." + ext)[|stem| + 1..] == ext;
  }

  /** Position i holds a dot, no dot follows it, and the lower-cased text
      after it is an allowed extension. */
  predicate AcceptedAt(filename: string, i: int) {
    && 0 <= i < |filename|
    && filename[i] == '.'
    && '.' !in filename[i + 1..]
    && Lower(filename[i + 1..]) in AllowedExtensions
  }

  /** The upload check in terms of positions: a name is accepted exactly when
      it has a dot with no dot after it and the lower-cased rest is an allowed
      extension. Only the last dot counts. */
  lemma AllowedFileIff(filename: string)
    ensures AllowedFile(filename) <==> exists i :: AcceptedAt(filename, i)
  {
    if AllowedFile(filename) {
      var i := LastIndexOf(filename, '.').value;
      assert filename[i + 1..] == Extension(filename).value;
      assert AcceptedAt(filename, i);
    }
    if exists i :: AcceptedAt(filename, i) {
      var i :| AcceptedAt(filename, i);
      var stem, ext := filename[..i], filename[i + 1..];
      assert filename == stem + "." + ext;
      ExtensionAfterLastDot(stem, ext);
    }
  }

  /** The upload check ignores letter case. */
  lemma AllowedFileCaseInsensitive(filename: string)
    ensures AllowedFile(Lower(filename)) == AllowedFile(filename)
  {
    LowerKeepsDotFree(filename);
    if '.' in filename {
      var i := LastIndexOf(filename, '.').value;
      var ext := filename[i + 1..];
      assert filename == filename[..i] + "." + ext;
      assert Lower(filename) == Lower(filename[..i]) + "." + Lower(ext);
      LowerKeepsDotFree(ext);
      ExtensionAfterLastDot(Lower(filename[..i]), Lower(ext));
      LowerIdempotent(ext);
    }
  }

  /** Only the last dot counts: an allowed extension before it does not help. */
  lemma InnerExtensionIgnored()
    ensures !AllowedFile("a.png.exe")
  {
    assert "a.png.exe" == "a.png" + "." + "exe";
    ExtensionAfterLastDot("a.png", "exe");
    assert Lower("exe") == "exe";
  }

  /** Only the last dot counts: an unlisted extension before it does not hurt. */
  lemma OuterExtensionDecides()
    ensures AllowedFile("a.exe.png")
  {
    assert "a.exe.png" == "a.exe" + "." + "png";
    ExtensionAfterLastDot("a.exe", "png");
    assert Lower("png") == "png";
  }

  /** Upper- and mixed-case extensions are accepted. */
  lemma UpperCaseAccepted()
    ensures AllowedFile("X.PNG") && AllowedFile("y.JpEg")
  {
    ExtensionAfterLastDot("X", "PNG");
    ExtensionAfterLastDot("y", "JpEg");
    assert Lower("PNG") == "png";
    assert Lower("JpEg") == "jpeg";
  }

  /** A name without a dot, or with an empty or unlisted extension, is refused. */
  lemma OtherNamesRejected()
    ensures !AllowedFile("screenshot")
    ensures !AllowedFile("image.")
    ensures !AllowedFile("image.gif")
  {
    assert '.' !in "screenshot";
    ExtensionAfterLastDot("image", "gif");
    assert Lower("gif") == "gif";
  }
}
