/**
 * The request lifecycle of server/app.js as pure state transitions: each
 * handler validates its request, reads the upload, runs a codec, and then
 * writes to and deletes from the two directories. A step returns the reply
 * and the file-system effects in the order the handler performs them.
 */
module Lifecycle {
  import opened Wrappers
  import opened Text
  import opened Codecs
  import opened Naming

  /** A directory: file name to contents. */
  type Store = map<string, Bytes>

  /** The `uploads` and `processed` directories. */
  datatype Stores = Stores(uploads: Store, processed: Store)

  datatype Zone = UploadsDir | ProcessedDir

  /** `fs.writeFileSync` / multer's disk write, and `fs.unlinkSync`. */
  datatype Effect =
    | Write(zone: Zone, name: string, data: Bytes)
    | Unlink(zone: Zone, name: string)

  function Apply(s: Stores, e: Effect): (t: Stores)
    ensures e.zone == UploadsDir ==> t.processed == s.processed
    ensures e.zone == ProcessedDir ==> t.uploads == s.uploads
  {
    match e
    case Write(UploadsDir, n, d) => s.(uploads := s.uploads[n := d])
    case Write(ProcessedDir, n, d) => s.(processed := s.processed[n := d])
    case Unlink(UploadsDir, n) => s.(uploads := s.uploads - {n})
    case Unlink(ProcessedDir, n) => s.(processed := s.processed - {n})
  }

  /** The effects applied one after the other, first to last. */
  function ApplyAll(s: Stores, es: seq<Effect>): (t: Stores)
    ensures (forall i :: 0 <= i < |es| ==> es[i].zone == UploadsDir) ==> t.processed == s.processed
    ensures (forall i :: 0 <= i < |es| ==> es[i].zone == ProcessedDir) ==> t.uploads == s.uploads
    decreases |es|
  {
    if es == [] then s else ApplyAll(Apply(s, es[0]), es[1..])
  }

  /** Running two effect lists in a row is running their concatenation. */
  lemma {:induction false} ApplyAllConcat(s: Stores, first: seq<Effect>, second: seq<Effect>)
    ensures ApplyAll(s, first + second) == ApplyAll(ApplyAll(s, first), second)
    decreases |first|
  {
    if first == [] {
      assert first + second == second;
    } else {
      assert (first + second)[0] == first[0];
      assert (first + second)[1..] == first[1..] + second;
      ApplyAllConcat(Apply(s, first[0]), first[1..], second);
    }
  }

  /** The failures a request can end in. */
  datatype Error =
    | NoFileUploaded
    | InvalidAlgorithm(given: string)
    | CannotDetectAlgorithm
    | UploadUnreadable(key: string)
    | CodecFailure(reason: string)
    | FilenameRequired
    | FileNotFound(name: string)

  /**
   * The `error` text of the failure reply: an invalid key is echoed with the
   * table's keys, a missing download is named, a codec's message is passed on.
   */
  function Message(e: Error): (m: string)
    ensures e.InvalidAlgorithm? ==> m == "Invalid algorithm: " + e.given + ". Available: gzip, deflate, brotli"
    ensures e.FileNotFound? ==> EndsWith(m, e.name)
    ensures e.CodecFailure? ==> m == e.reason
  {
    match e
    case NoFileUploaded => "No file uploaded"
    case InvalidAlgorithm(given) =>
      AvailableListing();
      "Invalid algorithm: " + given + ". Available: " + Join(Keys, ", ")
    case CannotDetectAlgorithm =>
      "Cannot detect algorithm. File must contain .gzip, .deflate, or .brotli in name"
    case UploadUnreadable(key) => "ENOENT: no such file or directory, open '" + key + "'"
    case CodecFailure(reason) => reason
    case FilenameRequired => "Filename required"
    case FileNotFound(name) => "File not found: " + name
  }

  /** The HTTP status of the failure reply: 404 for a missing download, 500 otherwise. */
  function Status(e: Error): (code: nat)
    ensures code == 404 <==> e.FileNotFound?
    ensures code == 404 || code == 500
  {
    if e.FileNotFound? then 404 else 500
  }

  /** The listing `Object.keys(algorithms).join(', ')`. */
  lemma {:induction false} AvailableListing()
    ensures Join(Keys, ", ") == "gzip, deflate, brotli"
  {
    assert Join(Keys[2..], ", ") == "brotli";
    assert Join(Keys[1..], ", ") == "deflate" + ", " + "brotli";
  }

  // ---------------------------------------------------------------------
  // Requests
  // ---------------------------------------------------------------------

  /** The `file` part of a multipart request as the client sent it. */
  datatype FilePart = FilePart(originalName: string, content: Bytes)

  /** `req.file` once multer has stored the part: its client name and storage key. */
  datatype UploadedFile = UploadedFile(originalName: string, key: string)

  datatype CompressReply = CompressReply(downloadFileName: string, stats: CompressStats)

  datatype DecompressReply = DecompressReply(downloadFileName: string, stats: DecompressStats)

  /** The reply of one request and its effects on the directories, in order. */
  datatype Step<+R> = Step(reply: Result<R, Error>, effects: seq<Effect>)

  /** Multer's disk storage: the part is written to `uploads` under a fresh key. */
  function ReceiveUpload(part: Option<FilePart>, now: nat): (r: (Option<UploadedFile>, seq<Effect>))
    ensures part.None? ==> r.0.None? && r.1 == []
    ensures part.Some? ==> r.0.Some? && r.0.value.originalName == part.value.originalName
    ensures part.Some? ==> r.1 == [Write(UploadsDir, r.0.value.key, part.value.content)]
    ensures part.Some? ==> r.0.value.key == UploadKey(now, part.value.originalName)
  {
    match part
    case None => (None, [])
    case Some(p) =>
      var key := UploadKey(now, p.originalName);
      (Some(UploadedFile(p.originalName, key)), [Write(UploadsDir, key, p.content)])
  }

  /** The algorithm key a compress request asks for; `gzip` when absent. */
  function RequestedKey(requested: Option<string>): (k: string)
    ensures requested.None? ==> k == DefaultKey && ParseAlgorithm(k) == Some(Gzip)
    ensures requested.Some? ==> k == requested.value
  {
    match requested
    case None => DefaultKey
    case Some(k) => k
  }

  /**
   * Compress validation: an absent field means gzip, a key outside the table
   * is rejected with the key it was given.
   */
  function ChooseAlgorithm(requested: Option<string>): (r: Result<Algorithm, Error>)
    ensures requested.None? ==> r == Ok(Gzip)
    ensures r.Ok? <==> RequestedKey(requested) in Keys
    ensures r.Ok? ==> Key(r.value) == RequestedKey(requested)
    ensures r.Err? ==> requested.Some? && r.error == InvalidAlgorithm(requested.value)
  {
    var key := RequestedKey(requested);
    match ParseAlgorithm(key)
    case Some(a) => Ok(a)
    case None => Err(InvalidAlgorithm(key))
  }

  /**
   * The names a plain JavaScript object inherits from Object.prototype, which
   * a property lookup such as `algorithms[key]` also finds.
   */
  const InheritedMembers: seq<string> := [
    "constructor", "__defineGetter__", "__defineSetter__", "hasOwnProperty",
    "__lookupGetter__", "__lookupSetter__", "isPrototypeOf", "propertyIsEnumerable",
    "toString", "valueOf", "__proto__", "toLocaleString"]

  const NotAFunction: string := "algorithms[algorithm].compress is not a function"

  /**
   * Compress validation as written: `!algorithms[algorithm]` rejects only keys
   * the lookup does not find, so an inherited member passes it and the call
   * of its `compress` fails with a TypeError instead.
   */
  function ChooseAlgorithmAsWritten(requested: Option<string>): (r: Result<Algorithm, string>)
    ensures r.Ok? <==> ChooseAlgorithm(requested).Ok?
    ensures r.Ok? ==> r.value == ChooseAlgorithm(requested).value
    ensures RequestedKey(requested) in InheritedMembers ==> r == Err(NotAFunction)
  {
    var key := RequestedKey(requested);
    if !(key in Keys || key in InheritedMembers) then Err(Message(InvalidAlgorithm(key)))
    else match ParseAlgorithm(key)
      case Some(a) => Ok(a)
      case None => Err(NotAFunction)
  }

  /** A request for "constructor" is not told which algorithms exist. */
  lemma {:induction false} InheritedMemberEscapesValidation()
    ensures ChooseAlgorithmAsWritten(Some("constructor")) == Err(NotAFunction)
    ensures ChooseAlgorithm(Some("constructor")) == Err(InvalidAlgorithm("constructor"))
    ensures Message(InvalidAlgorithm("constructor")) != NotAFunction
  {
    assert "constructor" in InheritedMembers;
    assert |Message(InvalidAlgorithm("constructor"))| > |NotAFunction|;
  }

  /** POST /api/compress after multer: validate, read, compress, stage, clean up. */
  function CompressStep(s: Stores, codecs: CodecFunctions, file: Option<UploadedFile>, requested: Option<string>)
    : (st: Step<CompressReply>)
    ensures file.None? ==> st.reply == Err(NoFileUploaded)
    ensures file.Some? && requested.Some? && requested.value !in Keys ==>
      st.reply == Err(InvalidAlgorithm(requested.value))
    ensures file.Some? && RequestedKey(requested) in Keys && file.value.key !in s.uploads ==>
      st.reply == Err(UploadUnreadable(file.value.key))
    ensures st.reply.Ok? <==> file.Some? && RequestedKey(requested) in Keys && file.value.key in s.uploads
    ensures st.reply.Err? ==> st.effects == []
    ensures st.reply.Ok? ==>
      var a := ParseAlgorithm(RequestedKey(requested)).value;
      var input := s.uploads[file.value.key];
      var output := codecs.compress(a, input);
      var name := st.reply.value.downloadFileName;
      && name == CompressOutputName(file.value.originalName, a)
      && st.reply.value.stats == CompressStats(Label(a), |input|, |output|)
      && st.effects == [Write(ProcessedDir, name, output), Unlink(UploadsDir, file.value.key)]
  {
    if file.None? then Step(Err(NoFileUploaded), [])
    else match ChooseAlgorithm(requested)
      case Err(e) => Step(Err(e), [])
      case Ok(a) =>
        if file.value.key !in s.uploads then Step(Err(UploadUnreadable(file.value.key)), [])
        else
          var result := RunCompress(codecs, a, s.uploads[file.value.key]);
          var name := CompressOutputName(file.value.originalName, a);
          Step(Ok(CompressReply(name, result.stats)),
               [Write(ProcessedDir, name, result.output), Unlink(UploadsDir, file.value.key)])
  }

  /** POST /api/decompress after multer: read, detect, decompress, stage, clean up. */
  function DecompressStep(s: Stores, codecs: CodecFunctions, file: Option<UploadedFile>): (st: Step<DecompressReply>)
    ensures file.None? ==> st.reply == Err(NoFileUploaded)
    ensures file.Some? && file.value.key !in s.uploads ==> st.reply == Err(UploadUnreadable(file.value.key))
    ensures file.Some? && file.value.key in s.uploads && DetectAlgorithm(file.value.originalName).None? ==>
      st.reply == Err(CannotDetectAlgorithm)
    ensures st.reply.Ok? <==>
      && file.Some? && file.value.key in s.uploads
      && DetectAlgorithm(file.value.originalName).Some?
      && codecs.decompress(DetectAlgorithm(file.value.originalName).value, s.uploads[file.value.key]).Ok?
    ensures st.reply.Err? ==> st.effects == []
    ensures file.Some? && file.value.key in s.uploads && DetectAlgorithm(file.value.originalName).Some? ==>
      var result := codecs.decompress(DetectAlgorithm(file.value.originalName).value, s.uploads[file.value.key]);
      result.Err? ==> st.reply == Err(CodecFailure(result.error))
    ensures st.reply.Ok? ==>
      var a := DetectAlgorithm(file.value.originalName).value;
      var input := s.uploads[file.value.key];
      var output := codecs.decompress(a, input).value;
      var name := st.reply.value.downloadFileName;
      && name == DecompressOutputName(file.value.originalName)
      && st.reply.value.stats == DecompressStats(Label(a), |input|, |output|)
      && st.effects == [Write(ProcessedDir, name, output), Unlink(UploadsDir, file.value.key)]
  {
    if file.None? then Step(Err(NoFileUploaded), [])
    else if file.value.key !in s.uploads then Step(Err(UploadUnreadable(file.value.key)), [])
    else match DetectAlgorithm(file.value.originalName)
      case None => Step(Err(CannotDetectAlgorithm), [])
      case Some(a) =>
        match RunDecompress(codecs, a, s.uploads[file.value.key])
        case Err(reason) => Step(Err(CodecFailure(reason)), [])
        case Ok(result) =>
          var name := DecompressOutputName(file.value.originalName);
          Step(Ok(DecompressReply(name, result.stats)),
               [Write(ProcessedDir, name, result.output), Unlink(UploadsDir, file.value.key)])
  }

  /**
   * GET /api/download: the name is looked up in `processed` as given; once the
   * transfer has completed (`delivered`), the file is deleted.
   */
  function DownloadStep(s: Stores, name: Option<string>, delivered: bool): (st: Step<Bytes>)
    ensures name.None? || name == Some("") ==> st.reply == Err(FilenameRequired)
    ensures name.Some? && name.value != "" && name.value !in s.processed ==>
      st.reply == Err(FileNotFound(name.value))
    ensures st.reply.Ok? <==> name.Some? && name.value != "" && name.value in s.processed
    ensures st.reply.Ok? ==> st.reply.value == s.processed[name.value]
    ensures st.effects == if st.reply.Ok? && delivered then [Unlink(ProcessedDir, name.value)] else []
  {
    if name.None? || name.value == "" then Step(Err(FilenameRequired), [])
    else if name.value !in s.processed then Step(Err(FileNotFound(name.value)), [])
    else Step(Ok(s.processed[name.value]), if delivered then [Unlink(ProcessedDir, name.value)] else [])
  }

  // ---------------------------------------------------------------------
  // Properties of the lifecycle
  // ---------------------------------------------------------------------

  /**
   * A successful transform writes its output, then deletes the upload; no
   * other file of either directory changes.
   */
  lemma {:induction false} TransformEffectsOnStores(s: Stores, name: string, output: Bytes, key: string)
    ensures var t := ApplyAll(s, [Write(ProcessedDir, name, output), Unlink(UploadsDir, key)]);
      && t.processed == s.processed[name := output]
      && t.uploads == s.uploads - {key}
  {
    var es := [Write(ProcessedDir, name, output), Unlink(UploadsDir, key)];
    var s1 := Apply(s, es[0]);
    assert es[1..] == [Unlink(UploadsDir, key)];
    assert ApplyAll(s, es) == ApplyAll(s1, es[1..]);
    assert ApplyAll(s1, es[1..]) == ApplyAll(Apply(s1, es[1]), []);
  }

  /** After a compress request, the directories hold exactly what the step says. */
  lemma {:induction false} CompressOutcome(s: Stores, codecs: CodecFunctions, file: Option<UploadedFile>, requested: Option<string>)
    ensures var st := CompressStep(s, codecs, file, requested);
      var t := ApplyAll(s, st.effects);
      && (st.reply.Err? ==> t == s)
      && (st.reply.Ok? ==>
            var a := ParseAlgorithm(RequestedKey(requested)).value;
            && t.processed == s.processed[st.reply.value.downloadFileName := codecs.compress(a, s.uploads[file.value.key])]
            && t.uploads == s.uploads - {file.value.key})
  {
    var st := CompressStep(s, codecs, file, requested);
    if st.reply.Ok? {
      var a := ParseAlgorithm(RequestedKey(requested)).value;
      TransformEffectsOnStores(s, st.reply.value.downloadFileName, codecs.compress(a, s.uploads[file.value.key]), file.value.key);
    }
  }

  /** After a decompress request, likewise. */
  lemma {:induction false} DecompressOutcome(s: Stores, codecs: CodecFunctions, file: Option<UploadedFile>)
    ensures var st := DecompressStep(s, codecs, file);
      var t := ApplyAll(s, st.effects);
      && (st.reply.Err? ==> t == s)
      && (st.reply.Ok? ==>
            var a := DetectAlgorithm(file.value.originalName).value;
            && t.processed == s.processed[st.reply.value.downloadFileName := codecs.decompress(a, s.uploads[file.value.key]).value]
            && t.uploads == s.uploads - {file.value.key})
  {
    var st := DecompressStep(s, codecs, file);
    if st.reply.Ok? {
      var a := DetectAlgorithm(file.value.originalName).value;
      TransformEffectsOnStores(s, st.reply.value.downloadFileName,
        codecs.decompress(a, s.uploads[file.value.key]).value, file.value.key);
    }
  }

  /**
   * A whole compress request (multer, then the handler): if it fails, the
   * upload multer stored is still in `uploads`, with the bytes sent.
   */
  lemma {:induction false} FailedCompressKeepsUpload(
    s: Stores, codecs: CodecFunctions, part: FilePart, now: nat, requested: Option<string>)
    ensures var (file, received) := ReceiveUpload(Some(part), now);
      var s1 := ApplyAll(s, received);
      var st := CompressStep(s1, codecs, file, requested);
      st.reply.Err? ==>
        var t := ApplyAll(s1, st.effects);
        file.value.key in t.uploads && t.uploads[file.value.key] == part.content
        && st.reply == Err(InvalidAlgorithm(requested.value))
  {
    var received := ReceiveUpload(Some(part), now);
    var file := received.0;
    var s1 := ApplyAll(s, received.1);
    assert received.1[1..] == [];
    assert s1 == ApplyAll(Apply(s, received.1[0]), []);
    assert file.value.key in s1.uploads;
    CompressOutcome(s1, codecs, file, requested);
  }

  /** The same for a whole decompress request. */
  lemma {:induction false} FailedDecompressKeepsUpload(s: Stores, codecs: CodecFunctions, part: FilePart, now: nat)
    ensures var (file, received) := ReceiveUpload(Some(part), now);
      var s1 := ApplyAll(s, received);
      var st := DecompressStep(s1, codecs, file);
      st.reply.Err? ==>
        var t := ApplyAll(s1, st.effects);
        file.value.key in t.uploads && t.uploads[file.value.key] == part.content
        && (st.reply == Err(CannotDetectAlgorithm) || st.reply.error.CodecFailure?)
  {
    var received := ReceiveUpload(Some(part), now);
    var file := received.0;
    var s1 := ApplyAll(s, received.1);
    assert received.1[1..] == [];
    assert s1 == ApplyAll(Apply(s, received.1[0]), []);
    assert file.value.key in s1.uploads;
    DecompressOutcome(s1, codecs, file);
  }

  /**
   * Compressing the same name with the same algorithm twice stages both
   * results under one name: the second overwrites the first.
   */
  lemma {:induction false} RepeatedCompressOverwrites(
    s: Stores, codecs: CodecFunctions, f1: UploadedFile, f2: UploadedFile, requested: Option<string>)
    requires f1.originalName == f2.originalName && f1.key != f2.key
    requires f1.key in s.uploads && f2.key in s.uploads && RequestedKey(requested) in Keys
    ensures var st1 := CompressStep(s, codecs, Some(f1), requested);
      var s1 := ApplyAll(s, st1.effects);
      var st2 := CompressStep(s1, codecs, Some(f2), requested);
      var s2 := ApplyAll(s1, st2.effects);
      && st1.reply.Ok? && st2.reply.Ok?
      && st1.reply.value.downloadFileName == st2.reply.value.downloadFileName
      && s2.processed.Keys == s1.processed.Keys
      && s2.processed == s1.processed[st2.reply.value.downloadFileName :=
           codecs.compress(ParseAlgorithm(RequestedKey(requested)).value, s.uploads[f2.key])]
      && s2.uploads == s.uploads - {f1.key, f2.key}
  {
    var a := ParseAlgorithm(RequestedKey(requested)).value;
    var name := CompressOutputName(f1.originalName, a);
    CompressSucceeds(s, codecs, f1, requested);
    var s1 := Stores(s.uploads - {f1.key}, s.processed[name := codecs.compress(a, s.uploads[f1.key])]);
    assert f2.key in s1.uploads && s1.uploads[f2.key] == s.uploads[f2.key];
    CompressSucceeds(s1, codecs, f2, requested);
    RestagingOverwrites(s, name, codecs.compress(a, s.uploads[f1.key]), codecs.compress(a, s.uploads[f2.key]), f1.key, f2.key);
  }

  /** Two stagings under one name: the second replaces the first, both uploads are gone. */
  lemma {:induction false} RestagingOverwrites(s: Stores, name: string, o1: Bytes, o2: Bytes, k1: string, k2: string)
    ensures var s1 := Stores(s.uploads - {k1}, s.processed[name := o1]);
      var s2 := Stores(s1.uploads - {k2}, s1.processed[name := o2]);
      && s2.processed.Keys == s1.processed.Keys
      && s2.processed == s.processed[name := o2]
      && s2.uploads == s.uploads - {k1, k2}
  {
    assert (s.uploads - {k1}) - {k2} == s.uploads - {k1, k2};
  }

  /** A compress request whose upload is present and whose algorithm is valid. */
  lemma {:induction false} CompressSucceeds(s: Stores, codecs: CodecFunctions, file: UploadedFile, requested: Option<string>)
    requires file.key in s.uploads && RequestedKey(requested) in Keys
    ensures var st := CompressStep(s, codecs, Some(file), requested);
      var a := ParseAlgorithm(RequestedKey(requested)).value;
      var name := CompressOutputName(file.originalName, a);
      var output := codecs.compress(a, s.uploads[file.key]);
      && st.reply.Ok? && st.reply.value.downloadFileName == name
      && ApplyAll(s, st.effects) == Stores(s.uploads - {file.key}, s.processed[name := output])
  {
    CompressOutcome(s, codecs, Some(file), requested);
  }

  /** A delivered download removes the file: asking again gives 404. */
  lemma {:induction false} DownloadIsSingleUse(s: Stores, name: string, again: bool)
    ensures var st := DownloadStep(s, Some(name), true);
      st.reply.Ok? ==>
        var t := ApplyAll(s, st.effects);
        && name !in t.processed
        && t.uploads == s.uploads
        && t.processed == s.processed - {name}
        && DownloadStep(t, Some(name), again).reply == Err(FileNotFound(name))
  {
    var st := DownloadStep(s, Some(name), true);
    if st.reply.Ok? {
      assert ApplyAll(s, st.effects) == ApplyAll(Apply(s, st.effects[0]), []);
    }
  }

  /** A transfer that did not complete leaves the file to be fetched again. */
  lemma {:induction false} UndeliveredDownloadKeepsFile(s: Stores, name: string)
    ensures var st := DownloadStep(s, Some(name), false);
      ApplyAll(s, st.effects) == s
  {
  }

  /**
   * The scenario of a compress followed by two downloads of the reply's name:
   * the first returns the compressed bytes, the second 404.
   */
  lemma {:induction false} CompressThenDownloadTwice(
    s: Stores, codecs: CodecFunctions, file: UploadedFile, requested: Option<string>)
    ensures var st := CompressStep(s, codecs, Some(file), requested);
      st.reply.Ok? ==>
        var name := st.reply.value.downloadFileName;
        var s1 := ApplyAll(s, st.effects);
        var d1 := DownloadStep(s1, Some(name), true);
        var s2 := ApplyAll(s1, d1.effects);
        && EndsWith(name, CompressedSuffix(ParseAlgorithm(RequestedKey(requested)).value))
        && d1.reply == Ok(codecs.compress(ParseAlgorithm(RequestedKey(requested)).value, s.uploads[file.key]))
        && DownloadStep(s2, Some(name), true).reply == Err(FileNotFound(name))
  {
    var st := CompressStep(s, codecs, Some(file), requested);
    if st.reply.Ok? {
      var a := ParseAlgorithm(RequestedKey(requested)).value;
      CompressSucceeds(s, codecs, file, requested);
      CompressedSuffixShape(a);
      StagedFileDownloadsOnce(ApplyAll(s, st.effects), st.reply.value.downloadFileName);
    }
  }

  /** A staged file is served once, then no longer found. */
  lemma {:induction false} StagedFileDownloadsOnce(s: Stores, name: string)
    requires name != "" && name in s.processed
    ensures var d1 := DownloadStep(s, Some(name), true);
      && d1.reply == Ok(s.processed[name])
      && DownloadStep(ApplyAll(s, d1.effects), Some(name), true).reply == Err(FileNotFound(name))
  {
    DownloadIsSingleUse(s, name, true);
  }
}
