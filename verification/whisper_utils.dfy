/**
 * The model cache and the transcription entry point of whisper_utils.py.
 * The cache is the module-level dict `_model_cache`, whose one entry starts as
 * None and is filled by the first call to load_model_cached; here it is an
 * object with an optional field. The recogniser itself is foreign code: its
 * loader is a method that allocates a fresh model, and its transcription is a
 * function passed in by the caller.
 */
module WhisperUtils {
  import opened Segments

  datatype Option<T> = None | Some(value: T)

  /** A loaded recogniser. Only its identity and the file it came from are
      modelled. */
  class WhisperModel {
    const path: string

    constructor (path: string)
      ensures this.path == path
    {
      this.path := path;
    }
  }

  /** whisper.load_model: every call builds a new model object. */
  method LoadModel(path: string) returns (model: WhisperModel)
    ensures fresh(model) && model.path == path
  {
    model := new WhisperModel(path);
  }

  /** `_model_cache` together with MODEL_PATH. `loads` counts the calls to the
      loader made so far. */
  class ModelCache {
    const modelPath: string
    var model: Option<WhisperModel>
    ghost var loads: nat

    /** The cache is filled exactly when the loader has run, it has run at most
        once, and what it holds came from MODEL_PATH. */
    ghost predicate Valid()
      reads this
    {
      && loads <= 1
      && (model.Some? <==> loads == 1)
      && (model.Some? ==> model.value.path == modelPath)
    }

    /** The module-level cache of line 5, created empty at import time. */
    constructor (modelPath: string)
      ensures Valid() && this.modelPath == modelPath
      ensures model == None && loads == 0
    {
      this.modelPath := modelPath;
      model := None;
      loads := 0;
    }

    /** load_model_cached (whisper_utils.py lines 11-14): the first call loads
        the model and stores it; every later call returns the stored object
        without loading again. */
    method LoadModelCached() returns (m: WhisperModel)
      requires Valid()
      modifies this
      ensures Valid() && model == Some(m) && loads == 1
      ensures old(model).Some? ==> m == old(model).value && loads == old(loads)
      ensures old(model).None? ==> fresh(m) && m.path == modelPath
    {
      if model.None? {
        var loaded := LoadModel(modelPath);
        model := Some(loaded);
        loads := loads + 1;
      }
      m := model.value;
    }
  }

  /** However many times it is called, the loader runs once and every call
      gets the same model object. */
  method LoadTwice(cache: ModelCache) returns (first: WhisperModel, second: WhisperModel)
    requires cache.Valid()
    modifies cache
    ensures cache.Valid() && cache.loads == 1
    ensures first == second && cache.model == Some(first)
  {
    first := cache.LoadModelCached();
    second := cache.LoadModelCached();
  }

  /** transcribe_video (whisper_utils.py lines 42-49): the cached model, the
      recogniser's segments for the file, and their records. `recognise`
      stands for model.transcribe(video_path)["segments"]. */
  method TranscribeVideo(cache: ModelCache, recognise: (WhisperModel, string) -> seq<RawSegment>,
                         videoPath: string, includeTimestamps: bool := true)
    returns (sentences: seq<Sentence>)
    requires cache.Valid()
    modifies cache
    ensures cache.Valid() && cache.model.Some? && cache.loads == 1
    ensures old(cache.model).Some? ==> cache.model == old(cache.model)
    ensures sentences == Sentences(recognise(cache.model.value, videoPath), includeTimestamps)
  {
    var model := cache.LoadModelCached();
    var segments := recognise(model, videoPath);
    sentences := GenerateSentenceSegments(segments, includeTimestamps);
  }
}
