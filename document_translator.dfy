/**
 * The document side of pytrans.py: the bounded retry around one provider call
 * (`translate_chunk`), the chunk loop of `translate_file` that keeps the
 * original text of a chunk whose translation failed, and the output file name
 * (`get_output_filename`).
 */
module DocumentTranslator {
  import opened Wrappers
  import opened Strings
  import opened ChunkPlanner

  /** `MAX_CHARS`: the provider's request size limit. */
  const MaxChars: nat := 5000

  /** The number of provider attempts `translate_chunk` makes. */
  const MaxAttempts: nat := 3

  /**
   * The remote translation service: for the request text, the source language
   * and the attempt number (0, 1, 2), either a translation or a failure. The
   * attempt number stands for the service's changing state between retries.
   */
  type Provider = (string, string, nat) -> Option<string>

  /**
   * What `translate_chunk` gives back: the pair (translation, source
   * language), or the exception raised after the last failed attempt.
   */
  datatype ChunkOutcome = Translated(text: string, lang: string) | Failed

  /**
   * The retry policy from attempt `attempt` on: the first answer that is a
   * translation. A translation it returns is the answer of one of the
   * remaining attempts, paired with the source language it was given.
   */
  function Retry(provider: Provider, text: string, sourceLang: string, attempt: nat): (r: ChunkOutcome)
    ensures r.Translated? ==> r.lang == sourceLang
    ensures r.Translated? ==> exists k :: attempt <= k < MaxAttempts && provider(text, sourceLang, k) == Some(r.text)
    decreases MaxAttempts - attempt
  {
    if attempt >= MaxAttempts then Failed
    else
      match provider(text, sourceLang, attempt)
      case Some(translated) => Translated(translated, sourceLang)
      case None => Retry(provider, text, sourceLang, attempt + 1)
  }

  /**
   * The retry policy succeeds exactly when one of the three attempts does, and
   * then returns the answer of the first attempt that succeeded, paired with
   * the source language it was given.
   */
  lemma {:induction false} RetryFirstSuccess(provider: Provider, text: string, sourceLang: string, attempt: nat)
    requires attempt <= MaxAttempts
    ensures Retry(provider, text, sourceLang, attempt).Translated?
      <==> exists k :: attempt <= k < MaxAttempts && provider(text, sourceLang, k).Some?
    ensures Retry(provider, text, sourceLang, attempt).Translated? ==>
      exists k :: attempt <= k < MaxAttempts
        && provider(text, sourceLang, k) == Some(Retry(provider, text, sourceLang, attempt).text)
        && Retry(provider, text, sourceLang, attempt).lang == sourceLang
        && forall j :: attempt <= j < k ==> provider(text, sourceLang, j).None?
    decreases MaxAttempts - attempt
  {
    if attempt < MaxAttempts && provider(text, sourceLang, attempt).None? {
      RetryFirstSuccess(provider, text, sourceLang, attempt + 1);
    }
  }

  /**
   * `translate_chunk(text, source_lang)`: up to three provider attempts,
   * returning at the first success. `attempts` is the number of provider
   * calls made; the sleep between attempts is left out.
   */
  method TranslateChunk(provider: Provider, text: string, sourceLang: string)
    returns (outcome: ChunkOutcome, attempts: nat)
    ensures outcome == Retry(provider, text, sourceLang, 0)
    ensures 1 <= attempts <= MaxAttempts
    ensures forall k :: 0 <= k < attempts - 1 ==> provider(text, sourceLang, k).None?
    ensures outcome.Translated? ==>
      provider(text, sourceLang, attempts - 1) == Some(outcome.text) && outcome.lang == sourceLang
    ensures outcome.Failed? ==> attempts == MaxAttempts && provider(text, sourceLang, attempts - 1).None?
  {
    var attempt := 0;
    while attempt < MaxAttempts
      invariant 0 <= attempt <= MaxAttempts
      invariant forall k :: 0 <= k < attempt ==> provider(text, sourceLang, k).None?
      invariant Retry(provider, text, sourceLang, attempt) == Retry(provider, text, sourceLang, 0)
    {
      var response := provider(text, sourceLang, attempt);
      if response.Some? {
        return Translated(response.value, sourceLang), attempt + 1;
      }
      attempt := attempt + 1;
    }
    return Failed, MaxAttempts;
  }

  /** The piece a chunk contributes: its translation, or the chunk itself when translation failed. */
  function Piece(outcome: ChunkOutcome, chunk: string): (piece: string)
    ensures outcome.Failed? ==> piece == chunk
    ensures outcome.Translated? ==> piece == outcome.text
  {
    if outcome.Translated? then outcome.text else chunk
  }

  /** One piece per chunk, in chunk order. */
  function Pieces(provider: Provider, chunks: seq<string>, sourceLang: string): (pieces: seq<string>)
    ensures |pieces| == |chunks|
  {
    seq(|chunks|, i requires 0 <= i < |chunks| => Piece(Retry(provider, chunks[i], sourceLang, 0), chunks[i]))
  }

  /**
   * `detected_lang` after the loop: the language of the last chunk that was
   * translated, if any, which is always the source language passed in.
   */
  function LastDetected(provider: Provider, chunks: seq<string>, sourceLang: string): (detected: Option<string>)
    ensures detected.Some? ==> detected == Some(sourceLang)
  {
    if |chunks| == 0 then None
    else
      match Retry(provider, chunks[|chunks| - 1], sourceLang, 0)
      case Translated(_, lang) => Some(lang)
      case Failed => LastDetected(provider, chunks[..|chunks| - 1], sourceLang)
  }

  /**
   * The reported language is the source language passed in, unless no chunk
   * was translated, in which case it stays `None`.
   */
  lemma {:induction false} LastDetectedIsSourceLang(provider: Provider, chunks: seq<string>, sourceLang: string)
    ensures LastDetected(provider, chunks, sourceLang)
      == if exists i :: 0 <= i < |chunks| && Retry(provider, chunks[i], sourceLang, 0).Translated?
         then Some(sourceLang) else None
  {
    if |chunks| > 0 {
      var init := chunks[..|chunks| - 1];
      LastDetectedIsSourceLang(provider, init, sourceLang);
      assert forall i :: 0 <= i < |init| ==> init[i] == chunks[i];
      RetryFirstSuccess(provider, chunks[|chunks| - 1], sourceLang, 0);
    }
  }

  /**
   * What `translate_file` does to the loaded content: `Done` with the text it
   * returns and the language it reports, or `Error` when the exception of a
   * failed single-request translation propagates to the caller.
   */
  datatype FileOutcome = Done(text: string, detected: Option<string>) | Error

  /**
   * The result of `translate_file` on `content`. Only a document that fits in
   * one request can fail, and when it is translated it reports the source
   * language.
   */
  function FileTranslation(provider: Provider, content: string, sourceLang: string): (r: FileOutcome)
    ensures r.Error? ==> |content| <= MaxChars
    ensures r.Done? && |content| <= MaxChars ==> r.detected == Some(sourceLang)
  {
    if |content| <= MaxChars then
      match Retry(provider, content, sourceLang, 0)
      case Translated(translated, lang) => Done(translated, Some(lang))
      case Failed => Error
    else
      var chunks := Chunks(content, MaxChars);
      Done(Concat(Pieces(provider, chunks, sourceLang)), LastDetected(provider, chunks, sourceLang))
  }

  /** The pieces and the detected language after one more chunk. */
  lemma PiecesStep(provider: Provider, chunks: seq<string>, i: nat, sourceLang: string)
    requires i < |chunks|
    ensures var outcome := Retry(provider, chunks[i], sourceLang, 0);
      && Pieces(provider, chunks[..i + 1], sourceLang) == Pieces(provider, chunks[..i], sourceLang) + [Piece(outcome, chunks[i])]
      && LastDetected(provider, chunks[..i + 1], sourceLang)
         == (if outcome.Translated? then Some(outcome.lang) else LastDetected(provider, chunks[..i], sourceLang))
  {
    assert chunks[..i + 1][..i] == chunks[..i];
  }

  /**
   * `translate_file` on loaded `content`: one request when it fits, otherwise
   * the chunks translated in order, a failed chunk kept as it was, and the
   * pieces joined. Loading the file and the progress bar are left out.
   */
  method TranslateFile(provider: Provider, content: string, sourceLang: string) returns (r: FileOutcome)
    ensures r == FileTranslation(provider, content, sourceLang)
  {
    if |content| <= MaxChars {
      var outcome, _ := TranslateChunk(provider, content, sourceLang);
      if outcome.Failed? {
        return Error;
      }
      return Done(outcome.text, Some(outcome.lang));
    }
    var chunks := ChunkText(content, MaxChars);
    var translatedChunks: seq<string> := [];
    var detectedLang: Option<string> := None;
    for i := 0 to |chunks|
      invariant translatedChunks == Pieces(provider, chunks[..i], sourceLang)
      invariant detectedLang == LastDetected(provider, chunks[..i], sourceLang)
    {
      var outcome, _ := TranslateChunk(provider, chunks[i], sourceLang);
      PiecesStep(provider, chunks, i, sourceLang);
      if outcome.Translated? {
        translatedChunks := translatedChunks + [outcome.text];
        detectedLang := Some(outcome.lang);
      } else {
        translatedChunks := translatedChunks + [chunks[i]];
      }
    }
    assert chunks[..|chunks|] == chunks;
    r := Done(Concat(translatedChunks), detectedLang);
  }

  /**
   * A long document never aborts: the result is the pieces joined in chunk
   * order, piece `i` is the translation of chunk `i` when it succeeded and
   * chunk `i` itself otherwise. This only unfolds `FileTranslation` and
   * `Pieces`; the loop that computes them is `TranslateFile`.
   */
  lemma LongDocumentPieces(provider: Provider, content: string, sourceLang: string)
    requires MaxChars < |content|
    ensures var chunks := Chunks(content, MaxChars); var pieces := Pieces(provider, chunks, sourceLang);
      && FileTranslation(provider, content, sourceLang) == Done(Concat(pieces), LastDetected(provider, chunks, sourceLang))
      && forall i :: 0 <= i < |chunks| ==>
           pieces[i] == match Retry(provider, chunks[i], sourceLang, 0)
                        case Translated(t, _) => t
                        case Failed => chunks[i]
  {
  }

  /**
   * When every chunk of a long document fails, the document comes back
   * unchanged and no language is reported.
   */
  lemma AllChunksFailedKeepsContent(provider: Provider, content: string, sourceLang: string)
    requires MaxChars < |content|
    requires forall i :: 0 <= i < |Chunks(content, MaxChars)| ==>
      Retry(provider, Chunks(content, MaxChars)[i], sourceLang, 0).Failed?
    ensures FileTranslation(provider, content, sourceLang) == Done(content, None)
  {
    var chunks := Chunks(content, MaxChars);
    ChunksCoverText(content, MaxChars);
    assert Pieces(provider, chunks, sourceLang) == chunks;
    LastDetectedIsSourceLang(provider, chunks, sourceLang);
  }

  /**
   * A document that fits in one request is translated by one retry sequence:
   * it fails as a whole exactly when all three attempts fail.
   */
  lemma ShortDocumentFailsOnlyAfterThreeFailures(provider: Provider, content: string, sourceLang: string)
    requires |content| <= MaxChars
    ensures FileTranslation(provider, content, sourceLang).Error?
      <==> forall k :: 0 <= k < MaxAttempts ==> provider(content, sourceLang, k).None?
  {
    RetryFirstSuccess(provider, content, sourceLang, 0);
  }

  // Output file naming (`get_output_filename`), with paths as strings split at the last '/'.

  /** The index of the last '/' in `path`, or -1. */
  function LastSlash(path: string): (r: int)
    ensures -1 <= r < |path|
    ensures r >= 0 ==> path[r] == '/'
    ensures forall k :: r < k < |path| ==> path[k] != '/'
  {
    if |path| == 0 then -1
    else if path[|path| - 1] == '/' then |path| - 1
    else LastSlash(path[..|path| - 1])
  }

  /** The directory part of `path`, with its trailing '/', or "" for a bare name. */
  function Directory(path: string): (dir: string)
    ensures |dir| <= |path|
    ensures dir == [] || dir[|dir| - 1] == '/'
  {
    path[..LastSlash(path) + 1]
  }

  /** `Path(path).name`: what follows the last '/', so it holds no '/' and completes the directory to the path. */
  function Name(path: string): (name: string)
    ensures '/' !in name
    ensures |Directory(path)| + |name| == |path|
  {
    var r := LastSlash(path);
    AfterLastSlash(path, r);
    path[r + 1..]
  }

  lemma AfterLastSlash(path: string, r: int)
    requires r == LastSlash(path)
    ensures '/' !in path[r + 1..]
  {
    var name := path[r + 1..];
    forall k | 0 <= k < |name| ensures name[k] != '/' {
      assert name[k] == path[r + 1 + k];
      assert r < r + 1 + k < |path|;
    }
  }

  /** The index at which `Path.suffix` starts in `name`: its last '.', unless that is first or last. */
  function SuffixStart(name: string): (i: nat)
    ensures i <= |name|
  {
    var dot := RFind(name, ".");
    if 0 < dot < |name| - 1 then dot else |name|
  }

  /** `Path.stem`: a prefix of the name, empty only for the empty name. */
  function Stem(name: string): (stem: string)
    ensures stem <= name
    ensures |name| > 0 ==> |stem| > 0
  {
    name[..SuffixStart(name)]
  }

  /** `Path.suffix`: "" or, from the last '.' on, a '.' followed by at least one character. */
  function Suffix(name: string): (suffix: string)
    ensures suffix == "" || (|suffix| >= 2 && suffix[0] == '.')
  {
    var i := SuffixStart(name);
    if i < |name| then
      OccurrenceHasChar(name, ".", i, 0);
      name[i..]
    else ""
  }

  /** `get_output_filename(path)`: the parent directory joined with `stem + "_en" + suffix`. */
  function OutputFilename(path: string): (r: string)
    ensures |r| == |path| + 3
  {
    var name := Name(path);
    Directory(path) + Stem(name) + "_en" + Suffix(name)
  }

  /** The stem and the suffix split the name. */
  lemma StemSuffixSplitName(name: string)
    ensures Stem(name) + Suffix(name) == name
  {
  }

  /**
   * The output file lies in the input's directory, its name is the input's
   * stem, then "_en", then the input's suffix, and it is never the input
   * itself, so the input is never overwritten.
   */
  lemma OutputFilenameKeepsDirectory(path: string)
    ensures Directory(OutputFilename(path)) == Directory(path)
    ensures Name(OutputFilename(path)) == Stem(Name(path)) + "_en" + Suffix(Name(path))
    ensures OutputFilename(path) != path
  {
    var dir := Directory(path);
    var name := Name(path);
    var newName := Stem(name) + "_en" + Suffix(name);
    assert OutputFilename(path) == dir + newName;
    assert '/' !in newName by {
      RenamedHasNoSlash(name);
    }
    DirectoryJoin(dir, newName);
  }

  /** Inserting "_en" before the suffix of a name without '/' adds no '/'. */
  lemma RenamedHasNoSlash(name: string)
    requires '/' !in name
    ensures '/' !in Stem(name) + "_en" + Suffix(name)
  {
    var i := SuffixStart(name);
    var newName := name[..i] + "_en" + name[i..];
    assert Stem(name) + "_en" + Suffix(name) == newName;
    forall k | 0 <= k < |newName| ensures newName[k] != '/' {
      if k < i {
        assert newName[k] == name[k];
      } else if k >= i + 3 {
        assert newName[k] == name[k - 3];
      }
    }
  }

  /** Joining a directory and a name without '/' gives a path with that directory and name. */
  lemma DirectoryJoin(dir: string, name: string)
    requires dir == [] || dir[|dir| - 1] == '/'
    requires '/' !in name
    ensures Directory(dir + name) == dir
    ensures Name(dir + name) == name
  {
    LastSlashAfterDirectory(dir, name);
    assert (dir + name)[..|dir|] == dir;
    assert (dir + name)[|dir|..] == name;
  }

  /** Appending a name without '/' to a directory leaves the last '/' where it was. */
  lemma {:induction false} LastSlashAfterDirectory(dir: string, name: string)
    requires dir == [] || dir[|dir| - 1] == '/'
    requires '/' !in name
    ensures LastSlash(dir + name) == |dir| - 1
    decreases |name|
  {
    if |name| == 0 {
      assert dir + name == dir;
    } else {
      var init := name[..|name| - 1];
      assert (dir + name)[..|dir + name| - 1] == dir + init;
      assert (dir + name)[|dir + name| - 1] == name[|name| - 1];
      assert '/' !in init by {
        forall k | 0 <= k < |init| ensures init[k] != '/' {
          assert init[k] == name[k];
        }
      }
      LastSlashAfterDirectory(dir, init);
    }
  }

  /**
   * For a name that does not end in '.', the output keeps the extension: its
   * suffix is the input's suffix and its stem is the input's stem plus "_en".
   */
  lemma OutputFilenameKeepsSuffix(path: string)
    requires Name(path) == [] || Name(path)[|Name(path)| - 1] != '.'
    ensures Suffix(Name(OutputFilename(path))) == Suffix(Name(path))
    ensures Stem(Name(OutputFilename(path))) == Stem(Name(path)) + "_en"
  {
    OutputFilenameKeepsDirectory(path);
    var name := Name(path);
    var i := SuffixStart(name);
    var newName := name[..i] + "_en" + name[i..];
    assert Name(OutputFilename(path)) == newName;
    SuffixStartAfterStem(name, newName);
    assert newName[i + 3..] == name[i..];
    assert newName[..i + 3] == name[..i] + "_en";
  }

  /** Inserting "_en" between stem and suffix moves the suffix start by three. */
  lemma SuffixStartAfterStem(name: string, newName: string)
    requires name == [] || name[|name| - 1] != '.'
    requires newName == name[..SuffixStart(name)] + "_en" + name[SuffixStart(name)..]
    ensures SuffixStart(newName) == SuffixStart(name) + 3
  {
    var i := SuffixStart(name);
    if i < |name| {
      // The suffix starts at the last dot; it is the last dot of the new name too.
      assert OccursAt(newName, ".", i + 3) by {
        assert newName[i + 3..i + 4] == name[i..i + 1];
      }
      forall q | i + 3 < q ensures !OccursAt(newName, ".", q) {
        if OccursAt(newName, ".", q) {
          OccurrenceHasChar(newName, ".", q, 0);
          assert newName[q] == name[q - 3];
          assert OccursAt(name, ".", q - 3) by {
            assert name[q - 3..q - 2] == [name[q - 3]];
          }
          assert false;
        }
      }
      assert RFind(newName, ".") == i + 3;
    } else {
      // No suffix: either no dot, or the only dots are at position 0.
      assert name[..i] == name && name[i..] == "";
      NoSuffixCases(name, newName);
    }
  }

  /** A name without suffix keeps having none once "_en" is appended to it. */
  lemma NoSuffixCases(name: string, newName: string)
    requires SuffixStart(name) == |name|
    requires name == [] || name[|name| - 1] != '.'
    requires newName == name + "_en"
    ensures SuffixStart(newName) == |newName|
  {
    var dot := RFind(name, ".");
    assert !(0 < dot < |name| - 1);
    assert dot != |name| - 1 || dot < 0;
    forall q | OccursAt(newName, ".", q) ensures q <= 0 {
      OccurrenceHasChar(newName, ".", q, 0);
      if q >= |name| {
        assert newName[q] == "_en"[q - |name|];
      } else {
        assert newName[q] == name[q];
        assert name[q..q + 1] == [name[q]];
        assert OccursAt(name, ".", q);
      }
    }
  }
}
