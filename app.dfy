/**
 The upload checks of the Flask back end (backend/src/app.py): the label map
 of the classifier, the extension filter `allowed_file`, and the ordered
 request checks at the top of `predict_audio` that run before any temporary
 file is written or any model work starts.
 */
module App {
  import opened Wrappers
  import opened Ascii

  /** `genres`: the classifier's ten labels and their output indices. */
  const Genres: map<string, nat> := map[
    "metal" := 0, "disco" := 1, "classical" := 2, "hiphop" := 3, "jazz" := 4,
    "country" := 5, "pop" := 6, "blues" := 7, "reggae" := 8, "rock" := 9
  ]

  /** `ALLOWED_EXTENSIONS`. */
  const AllowedExtensions: set<string> := {"wav", "mp3", "flac", "ogg", "m4a", "aac"}

  /** The ten labels are distinct. */
  lemma GenreLabelsDistinct()
    ensures |Genres.Keys| == 10
  {
    var labels := {"metal", "disco", "classical", "hiphop", "jazz", "country", "pop", "blues", "reggae", "rock"};
    assert |labels| == 10;
    assert Genres.Keys == labels;
  }

  /** Every index 0..9 is used, and no other. */
  lemma GenreIndicesExact()
    ensures Genres.Values == {0, 1, 2, 3, 4, 5, 6, 7, 8, 9}
  {
    forall v | v in Genres.Values ensures v < 10 {
      var g :| g in Genres && Genres[g] == v;
    }
    assert Genres["metal"] == 0 && Genres["disco"] == 1 && Genres["classical"] == 2;
    assert Genres["hiphop"] == 3 && Genres["jazz"] == 4 && Genres["country"] == 5;
    assert Genres["pop"] == 6 && Genres["blues"] == 7 && Genres["reggae"] == 8 && Genres["rock"] == 9;
  }

  /** The label map is a bijection between ten distinct labels and 0..9. */
  lemma GenresBijective()
    ensures |Genres| == 10
    ensures Genres.Values == {0, 1, 2, 3, 4, 5, 6, 7, 8, 9}
    ensures forall g, h :: g in Genres && h in Genres && Genres[g] == Genres[h] ==> g == h
  {
    GenreLabelsDistinct();
    GenreIndicesExact();
  }

  /** Position of the last occurrence of `c` in `s`, if any. */
  function LastIndexOf(s: string, c: char): (r: Option<nat>)
    ensures r.None? <==> c !in s
    ensures r.Some? ==> r.value < |s| && s[r.value] == c && c !in s[r.value + 1..]
  {
    if s == [] then None
    else if s[|s| - 1] == c then Some(|s| - 1)
    else
      var r := LastIndexOf(s[..|s| - 1], c);
      assert s == s[..|s| - 1] + [s[|s| - 1]];
      r
  }

  /** A character has at most one last occurrence. */
  lemma LastOccurrenceUnique(s: string, c: char, j: nat, k: nat)
    requires j < |s| && s[j] == c && c !in s[j + 1..]
    requires k < |s| && s[k] == c && c !in s[k + 1..]
    ensures j == k
  {
  }

  /**
   `filename.rsplit('.', 1)[1]` when the name holds a `.`: the text after the
   last dot, which may be empty.
   */
  function Extension(filename: string): (r: Option<string>)
    ensures r.None? <==> '.' !in filename
    ensures r.Some? ==> '.' !in r.value && |r.value| < |filename|
    ensures r.Some? ==> filename == filename[..|filename| - |r.value| - 1] + "." + r.value
  {
    match LastIndexOf(filename, '.')
    case None => None
    case Some(k) => Some(filename[k + 1..])
  }

  /**
   `allowed_file`: the name holds a `.`, and the text after its last `.`,
   lower-cased, is one of the allowed extensions.
   */
  function AllowedFile(filename: string): (ok: bool)
    ensures '.' !in filename ==> !ok
  {
    match Extension(filename)
    case None => false
    case Some(ext) => Lower(ext) in AllowedExtensions
  }

  /**
   The independent reading of `allowed_file`: some `.` of the name is its last
   one, and what follows it, lower-cased, is an allowed extension.
   */
  lemma AllowedFileMeansLastDotExtension(filename: string)
    ensures AllowedFile(filename) <==>
              exists k :: 0 <= k < |filename| && filename[k] == '.' && '.' !in filename[k + 1..]
                          && Lower(filename[k + 1..]) in AllowedExtensions
  {
    var ext := Extension(filename);
    if ext.Some? {
      var k := |filename| - |ext.value| - 1;
      assert filename[k + 1..] == ext.value && filename[k] == '.';
      forall j | 0 <= j < |filename| && filename[j] == '.' && '.' !in filename[j + 1..]
        ensures j == k
      {
        LastOccurrenceUnique(filename, '.', j, k);
      }
    }
  }

  /** Lower-casing a name does not move its last `.`. */
  lemma {:induction false} LastDotIgnoresCase(s: string)
    ensures LastIndexOf(Lower(s), '.') == LastIndexOf(s, '.')
  {
    if s != [] {
      var n := |s| - 1;
      LowerPrefix(s, n);
      LastDotIgnoresCase(s[..n]);
    }
  }

  /** `allowed_file` does not depend on the case of any character of the name. */
  lemma AllowedFileIgnoresCase(filename: string)
    ensures AllowedFile(Lower(filename)) == AllowedFile(filename)
  {
    LastDotIgnoresCase(filename);
    match LastIndexOf(filename, '.')
    case None =>
    case Some(k) =>
      var ext := filename[k + 1..];
      var lower := Lower(filename);
      assert Extension(filename) == Some(ext);
      assert Extension(lower) == Some(lower[k + 1..]);
      LowerSuffix(filename, k + 1);
      LowerIdempotent(ext);
      assert AllowedFile(lower) == (Lower(Lower(ext)) in AllowedExtensions);
  }

  /** A name ending in `.` has an empty extension, which is never allowed. */
  lemma TrailingDotRejected(filename: string)
    requires |filename| > 0 && filename[|filename| - 1] == '.'
    ensures !AllowedFile(filename)
  {
    var ext := Extension(filename);
    assert ext == Some([]);
  }

  /** The last `.` of a concrete name, found by exhibiting it. */
  lemma LastDotAt(s: string, k: nat)
    requires k < |s| && s[k] == '.' && '.' !in s[k + 1..]
    ensures Extension(s) == Some(s[k + 1..])
  {
    LastOccurrenceUnique(s, '.', LastIndexOf(s, '.').value, k);
  }

  /** Only the text after the last dot counts, in any case. */
  lemma AllowedFileExamples()
    ensures AllowedFile("a.tar.WAV")
    ensures AllowedFile("track.mp3")
    ensures !AllowedFile("wav.txt")
    ensures !AllowedFile("song.")
    ensures !AllowedFile("wav")
  {
    LastDotAt("a.tar.WAV", 5);
    assert "a.tar.WAV"[6..] == "WAV";
    assert Lower("WAV") == "wav";
    LastDotAt("track.mp3", 5);
    assert "track.mp3"[6..] == "mp3";
    assert Lower("mp3") == "mp3";
    LastDotAt("wav.txt", 3);
    assert "wav.txt"[4..] == "txt";
    assert Lower("txt") == "txt";
    TrailingDotRejected("song.");
  }

  /** A file part of the multipart request; only its client-supplied name is examined before the model runs. */
  datatype Upload = Upload(filename: string)

  /** Why `predict_audio` answers before doing any work; each of these is a 400 response. */
  datatype Rejection =
    | NoAudioProvided   // neither an `audio` nor a `file` field
    | NoFileSelected    // the chosen field has an empty file name
    | UnsupportedType   // `allowed_file` refuses the name

  /** The outcome of the checks: a 400 response, or go on to write a temporary file with this suffix. */
  datatype Decision = Reject(reason: Rejection) | SaveAs(file: Upload, suffix: string)

  /** The `audio` field is used when present, else the `file` field. */
  function SelectUpload(files: map<string, Upload>): (r: Option<Upload>)
    ensures r.None? <==> "audio" !in files && "file" !in files
    ensures "audio" in files ==> r == Some(files["audio"])
    ensures "audio" !in files && "file" in files ==> r == Some(files["file"])
  {
    if "audio" in files then Some(files["audio"])
    else if "file" in files then Some(files["file"])
    else None
  }

  /** The suffix of the temporary file: `.` and the lower-cased extension. */
  function TempSuffix(filename: string): (r: string)
    requires '.' in filename
    ensures |r| == |Extension(filename).value| + 1 && r[0] == '.' && '.' !in r[1..]
  {
    "." + Lower(Extension(filename).value)
  }

  /** The checks of `predict_audio`, in the order the handler makes them. */
  function CheckUpload(files: map<string, Upload>): (d: Decision)
    ensures d == Reject(NoAudioProvided) <==> SelectUpload(files).None?
    ensures d == Reject(NoFileSelected) <==> SelectUpload(files).Some? && SelectUpload(files).value.filename == ""
    ensures d == Reject(UnsupportedType) <==>
              SelectUpload(files).Some? && SelectUpload(files).value.filename != ""
              && !AllowedFile(SelectUpload(files).value.filename)
    ensures d.SaveAs? <==>
              SelectUpload(files).Some? && SelectUpload(files).value.filename != ""
              && AllowedFile(SelectUpload(files).value.filename)
    ensures d.SaveAs? ==> SelectUpload(files) == Some(d.file)
  {
    match SelectUpload(files)
    case None => Reject(NoAudioProvided)
    case Some(file) =>
      if file.filename == "" then Reject(NoFileSelected)
      else if !AllowedFile(file.filename) then Reject(UnsupportedType)
      else SaveAs(file, TempSuffix(file.filename))
  }

  /**
   A request that passes the checks is saved under a suffix that is `.` plus an
   allowed extension, and that suffix is the lower-cased tail of the file name
   from its last `.` on.
   */
  lemma TempSuffixIsAllowedExtension(files: map<string, Upload>)
    requires CheckUpload(files).SaveAs?
    ensures var d := CheckUpload(files);
            && |d.suffix| <= |d.file.filename|
            && d.suffix[0] == '.'
            && d.suffix[1..] in AllowedExtensions
            && '.' !in d.suffix[1..]
            && Lower(d.file.filename[|d.file.filename| - |d.suffix|..]) == d.suffix
  {
    var d := CheckUpload(files);
    var name := d.file.filename;
    var ext := Extension(name).value;
    var k := |name| - |ext| - 1;
    assert name[k..] == "." + ext;
    LowerSuffix(name, k);
    assert d.suffix == "." + Lower(ext);
    assert Lower(name[k..]) == "." + Lower(ext);
    forall i | 0 <= i < |ext| ensures Lower(ext)[i] != '.' {
      assert ext[i] != '.';
    }
  }
}
