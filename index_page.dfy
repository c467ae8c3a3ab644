/**
 The classifier page (frontend/src/pages/Index.tsx): the state the component
 keeps between renders, and the handlers that change it. One classification
 attempt is one atomic step whose network outcome is an input; the browser's
 `localStorage` slot is a separate object that outlives the page.
 */
module IndexPage {
  import opened Wrappers
  import opened Ascii
  import opened History
  import App

  /** A browser `File`: its name, its declared media type and its size in bytes. */
  datatype AudioFile = AudioFile(name: string, mediaType: string, size: nat)

  /** How the request to the prediction endpoint ended, as `classifyGenre` sees it. */
  datatype Response =
    | HttpError(status: int)                             // `response.ok` is false
    | Unsuccessful(error: Option<string>)                // the body says `success: false`
    | Predicted(predictedGenre: string, percent: int)    // success; `Math.round(confidence * 100)`
    | NetworkError(message: string)                      // `fetch` or `response.json()` threw

  /** `file.type.startsWith("audio/")`. */
  predicate IsAudioType(mediaType: string)
    ensures IsAudioType(mediaType) <==> |mediaType| >= 6 && mediaType[..6] == "audio/"
  {
    "audio/" <= mediaType
  }

  /** `s.charAt(0).toUpperCase() + s.slice(1)` on ASCII text. */
  function Capitalize(s: string): (r: string)
    ensures |r| == |s|
    ensures s != [] ==> r[0] == UpperChar(s[0]) && r[1..] == s[1..]
    ensures s == [] ==> r == []
  {
    if s == [] then [] else [UpperChar(s[0])] + s[1..]
  }

  /** Capitalising an already capitalised label changes nothing. */
  lemma CapitalizeIdempotent(s: string)
    ensures Capitalize(Capitalize(s)) == Capitalize(s)
  {
  }

  /** Capitalising only changes case: lower-casing undoes it. */
  lemma {:induction false} CapitalizeOnlyChangesCase(s: string)
    ensures Lower(Capitalize(s)) == Lower(s)
  {
    if s != [] {
      LowerUpperChar(s[0]);
      assert Lower(Capitalize(s))[0] == Lower(s)[0];
      assert Lower(Capitalize(s))[1..] == Lower(s)[1..];
    }
  }

  /** Every label the back end can report is shown capitalised, and lower-casing the shown text gives the label back. */
  lemma DisplayedLabelsLowerToBackendLabels()
    ensures forall g :: g in App.Genres ==> Lower(Capitalize(g)) == g
  {
    forall g | g in App.Genres ensures Lower(Capitalize(g)) == g {
      CapitalizeOnlyChangesCase(g);
      assert g in {"metal", "disco", "classical", "hiphop", "jazz", "country", "pop", "blues", "reggae", "rock"};
      forall i | 0 <= i < |g| ensures LowerChar(g[i]) == g[i] {
        assert IsLower(g[i]);
      }
    }
  }

  /** The `localStorage` slot "classificationHistory"; its JSON encoding is taken as the identity. */
  class Storage {
    var slot: Option<seq<Classification>>

    constructor (saved: Option<seq<Classification>>)
      ensures slot == saved
    {
      slot := saved;
    }
  }

  /** The state of the `Index` component. */
  class Page {
    const storage: Storage
    var selectedFile: Option<AudioFile>
    var isProcessing: bool
    var predictedGenre: Option<string>
    var confidence: int
    var fileSize: string
    var history: seq<Classification>

    /**
     Between two handlers nothing is being processed; no prediction means a
     confidence of 0; a shown prediction belongs to the selected file and is the
     newest history record. The last part holds because a classification attempt
     is one atomic step here: in the page, the other handlers stay live while a
     request is in flight and can change the selection before the answer lands.
     */
    ghost predicate Valid()
      reads this
    {
      && !isProcessing
      && (predictedGenre.None? ==> confidence == 0)
      && (predictedGenre.Some? ==>
            && selectedFile.Some?
            && history != []
            && history[0].genre == predictedGenre.value
            && history[0].confidence == confidence
            && history[0].fileName == selectedFile.value.name)
    }

    /** Mounting: the initial `useState` values, then the load effect, which runs once. */
    constructor Mount(storage: Storage)
      ensures Valid()
      ensures this.storage == storage
      ensures selectedFile == None && predictedGenre == None && confidence == 0 && fileSize == ""
      ensures history == (if storage.slot.Some? then storage.slot.value else [])
    {
      this.storage := storage;
      selectedFile := None;
      isProcessing := false;
      predictedGenre := None;
      confidence := 0;
      fileSize := "";
      history := [];
      new;
      if storage.slot.Some? {
        history := storage.slot.value;
      }
    }

    /** The save effect: runs when `history` has changed, and writes only a non-empty history. */
    method SaveHistoryEffect()
      requires Valid()
      modifies storage
      ensures Valid()
      ensures history != [] ==> storage.slot == Some(history)
      ensures history == [] ==> storage.slot == old(storage.slot)
    {
      if |history| > 0 {
        storage.slot := Some(history);
      }
    }

    /**
     `handleFileSelect`: a file whose media type does not start with `audio/`
     changes nothing; any other file becomes the selection and clears the shown
     prediction. `megabytes` is the `toFixed(2)` text of its size in MiB.
     */
    method HandleFileSelect(file: AudioFile, megabytes: string)
      requires Valid()
      modifies this
      ensures Valid()
      ensures !IsAudioType(file.mediaType) ==> unchanged(this)
      ensures IsAudioType(file.mediaType) ==>
                && selectedFile == Some(file)
                && predictedGenre == None
                && confidence == 0
                && fileSize == megabytes + " MB"
                && history == old(history)
                && isProcessing == old(isProcessing)
    {
      if !IsAudioType(file.mediaType) {
        return;
      }
      selectedFile := Some(file);
      predictedGenre := None;
      confidence := 0;
      fileSize := megabytes + " MB";
    }

    /** `clearFile`: back to no selection; the history is kept. */
    method ClearFile()
      requires Valid()
      modifies this
      ensures Valid()
      ensures selectedFile == None && predictedGenre == None && confidence == 0 && fileSize == ""
      ensures history == old(history) && isProcessing == old(isProcessing)
    {
      selectedFile := None;
      predictedGenre := None;
      confidence := 0;
      fileSize := "";
    }

    /** `classifyAnother`: the same reset as `clearFile`, without its notice. */
    method ClassifyAnother()
      requires Valid()
      modifies this
      ensures Valid()
      ensures selectedFile == None && predictedGenre == None && confidence == 0 && fileSize == ""
      ensures history == old(history) && isProcessing == old(isProcessing)
    {
      predictedGenre := None;
      confidence := 0;
      selectedFile := None;
      fileSize := "";
    }

    /**
     `classifyGenre`: without a selected file nothing happens. Otherwise a
     prediction is shown and recorded at the front of the history; every other
     outcome leaves no prediction and the history as it was. `id` and
     `timestamp` are the two `Date.now()` readings.
     */
    method ClassifyGenre(response: Response, id: string, timestamp: int)
      requires Valid()
      modifies this
      ensures Valid()
      ensures old(selectedFile).None? ==> unchanged(this)
      ensures old(selectedFile).Some? ==>
                && !isProcessing
                && selectedFile == old(selectedFile)
                && fileSize == old(fileSize)
      ensures old(selectedFile).Some? && response.Predicted? ==>
                var shown := Capitalize(response.predictedGenre);
                && predictedGenre == Some(shown)
                && confidence == response.percent
                && history == [Classification(id, old(selectedFile).value.name, shown, response.percent, timestamp)] + old(history)
      ensures old(selectedFile).Some? && !response.Predicted? ==>
                && predictedGenre == None
                && confidence == 0
                && history == old(history)
    {
      if selectedFile.None? {
        return;
      }
      isProcessing := true;
      predictedGenre := None;
      confidence := 0;
      if response.Predicted? {
        var displayGenre := Capitalize(response.predictedGenre);
        predictedGenre := Some(displayGenre);
        confidence := response.percent;
        var record := Classification(id, selectedFile.value.name, displayGenre, response.percent, timestamp);
        history := [record] + history;
      }
      isProcessing := false;
    }
  }

  /**
   What survives a reload: once the save effect has run for a non-empty
   history, mounting the page again on the same storage restores it.
   */
  method ReloadRestoresHistory(page: Page) returns (reloaded: Page)
    requires page.Valid() && page.history != []
    modifies page.storage
    ensures reloaded.history == page.history
    ensures reloaded.selectedFile == None && reloaded.predictedGenre == None
  {
    page.SaveHistoryEffect();
    reloaded := new Page.Mount(page.storage);
  }
}
