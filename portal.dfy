/**
 * The server of server/app.js as an object whose two directories change in
 * place. Each method performs the handler's steps in the handler's order and
 * is proved to agree with the step function of the same request; the ghost
 * `journal` records every write and unlink, so the order of effects is part
 * of each method's contract.
 */
module Portal {
  import opened Wrappers
  import opened Codecs
  import opened Naming
  import opened Lifecycle

  class Server {
    /** The `uploads` directory, filled by multer. */
    var uploads: Store
    /** The `processed` directory, filled by the transform handlers. */
    var processed: Store
    /** Every write and unlink performed so far, oldest first. */
    ghost var journal: seq<Effect>
    /** The zlib functions the algorithm table calls. */
    const codecs: CodecFunctions

    function State(): Stores
      reads this
    {
      Stores(uploads, processed)
    }

    /**
     * The server starts on whatever the two directories already hold: files
     * left by failed requests and outputs never downloaded survive a restart.
     */
    constructor(codecs: CodecFunctions, initialUploads: Store, initialProcessed: Store)
      ensures this.codecs == codecs
      ensures uploads == initialUploads && processed == initialProcessed && journal == []
    {
      this.codecs := codecs;
      uploads := initialUploads;
      processed := initialProcessed;
      journal := [];
    }

    /** `fs.readFileSync`: the contents of a file, or nothing when it is absent. */
    method ReadFile(zone: Zone, name: string) returns (r: Option<Bytes>)
      ensures zone == UploadsDir ==> (r.Some? <==> name in uploads) && (r.Some? ==> r.value == uploads[name])
      ensures zone == ProcessedDir ==> (r.Some? <==> name in processed) && (r.Some? ==> r.value == processed[name])
    {
      var dir := if zone == UploadsDir then uploads else processed;
      r := if name in dir then Some(dir[name]) else None;
    }

    /** `fs.writeFileSync` (and multer's disk write): creates or replaces one file. */
    method WriteFile(zone: Zone, name: string, data: Bytes)
      modifies this
      ensures State() == Apply(old(State()), Write(zone, name, data))
      ensures zone == UploadsDir ==> uploads == old(uploads)[name := data] && processed == old(processed)
      ensures zone == ProcessedDir ==> processed == old(processed)[name := data] && uploads == old(uploads)
      ensures journal == old(journal) + [Write(zone, name, data)]
    {
      if zone == UploadsDir {
        uploads := uploads[name := data];
      } else {
        processed := processed[name := data];
      }
      journal := journal + [Write(zone, name, data)];
    }

    /** `fs.unlinkSync`: removes one file. */
    method UnlinkFile(zone: Zone, name: string)
      modifies this
      ensures State() == Apply(old(State()), Unlink(zone, name))
      ensures zone == UploadsDir ==> uploads == old(uploads) - {name} && processed == old(processed)
      ensures zone == ProcessedDir ==> processed == old(processed) - {name} && uploads == old(uploads)
      ensures journal == old(journal) + [Unlink(zone, name)]
    {
      if zone == UploadsDir {
        uploads := uploads - {name};
      } else {
        processed := processed - {name};
      }
      journal := journal + [Unlink(zone, name)];
    }

    /** Multer's `upload.single('file')`: stores the part under its upload key. */
    method Receive(part: Option<FilePart>, now: nat) returns (file: Option<UploadedFile>)
      modifies this
      ensures file == ReceiveUpload(part, now).0
      ensures State() == ApplyAll(old(State()), ReceiveUpload(part, now).1)
      ensures journal == old(journal) + ReceiveUpload(part, now).1
      ensures part.None? ==> file.None? && uploads == old(uploads)
      ensures part.Some? ==>
        && file == Some(UploadedFile(part.value.originalName, UploadKey(now, part.value.originalName)))
        && uploads == old(uploads)[file.value.key := part.value.content]
      ensures processed == old(processed)
    {
      if part.None? {
        file := None;
        return;
      }
      var key := UploadKey(now, part.value.originalName);
      WriteFile(UploadsDir, key, part.value.content);
      file := Some(UploadedFile(part.value.originalName, key));
      ghost var es := ReceiveUpload(part, now).1;
      assert ApplyAll(old(State()), es) == ApplyAll(Apply(old(State()), es[0]), es[1..]);
      assert es[1..] == [];
    }

    /** The two effects of a successful transform, as one step. */
    method Stage(name: string, output: Bytes, key: string)
      modifies this
      ensures State() == ApplyAll(old(State()), [Write(ProcessedDir, name, output), Unlink(UploadsDir, key)])
      ensures processed == old(processed)[name := output] && uploads == old(uploads) - {key}
      ensures journal == old(journal) + [Write(ProcessedDir, name, output), Unlink(UploadsDir, key)]
    {
      WriteFile(ProcessedDir, name, output);
      UnlinkFile(UploadsDir, key);
      TransformEffectsOnStores(old(State()), name, output, key);
    }

    /** POST /api/compress, once multer has run. */
    method Compress(file: Option<UploadedFile>, requested: Option<string>) returns (reply: Result<CompressReply, Error>)
      modifies this
      ensures var st := CompressStep(old(State()), codecs, file, requested);
        && reply == st.reply
        && State() == ApplyAll(old(State()), st.effects)
        && journal == old(journal) + st.effects
      ensures reply.Err? ==> uploads == old(uploads) && processed == old(processed)
      ensures reply.Ok? ==>
        var a := ParseAlgorithm(RequestedKey(requested)).value;
        && processed == old(processed)[reply.value.downloadFileName := codecs.compress(a, old(uploads)[file.value.key])]
        && uploads == old(uploads) - {file.value.key}
    {
      if file.None? {
        return Err(NoFileUploaded);
      }
      var algorithm := ChooseAlgorithm(requested);
      if algorithm.Err? {
        return Err(algorithm.error);
      }
      var input := ReadFile(UploadsDir, file.value.key);
      if input.None? {
        return Err(UploadUnreadable(file.value.key));
      }
      var result := RunCompress(codecs, algorithm.value, input.value);
      var name := CompressOutputName(file.value.originalName, algorithm.value);
      Stage(name, result.output, file.value.key);
      reply := Ok(CompressReply(name, result.stats));
    }

    /** POST /api/decompress, once multer has run. */
    method Decompress(file: Option<UploadedFile>) returns (reply: Result<DecompressReply, Error>)
      modifies this
      ensures var st := DecompressStep(old(State()), codecs, file);
        && reply == st.reply
        && State() == ApplyAll(old(State()), st.effects)
        && journal == old(journal) + st.effects
      ensures reply.Err? ==> uploads == old(uploads) && processed == old(processed)
      ensures reply.Ok? ==>
        var a := DetectAlgorithm(file.value.originalName).value;
        && processed == old(processed)[reply.value.downloadFileName := codecs.decompress(a, old(uploads)[file.value.key]).value]
        && uploads == old(uploads) - {file.value.key}
    {
      if file.None? {
        return Err(NoFileUploaded);
      }
      var input := ReadFile(UploadsDir, file.value.key);
      if input.None? {
        return Err(UploadUnreadable(file.value.key));
      }
      var algorithm := DetectAlgorithm(file.value.originalName);
      if algorithm.None? {
        return Err(CannotDetectAlgorithm);
      }
      var result := RunDecompress(codecs, algorithm.value, input.value);
      if result.Err? {
        return Err(CodecFailure(result.error));
      }
      var name := DecompressOutputName(file.value.originalName);
      Stage(name, result.value.output, file.value.key);
      reply := Ok(DecompressReply(name, result.value.stats));
    }

    /**
     * GET /api/download: `delivered` says whether the transfer completed, in
     * which case the file is deleted if it still exists.
     */
    method Download(name: Option<string>, delivered: bool) returns (reply: Result<Bytes, Error>)
      modifies this
      ensures var st := DownloadStep(old(State()), name, delivered);
        && reply == st.reply
        && State() == ApplyAll(old(State()), st.effects)
        && journal == old(journal) + st.effects
      ensures uploads == old(uploads)
      ensures reply.Ok? && delivered ==> processed == old(processed) - {name.value}
      ensures !(reply.Ok? && delivered) ==> processed == old(processed)
    {
      if name.None? || name.value == "" {
        return Err(FilenameRequired);
      }
      var contents := ReadFile(ProcessedDir, name.value);
      if contents.None? {
        return Err(FileNotFound(name.value));
      }
      reply := Ok(contents.value);
      if delivered {
        var still := ReadFile(ProcessedDir, name.value);
        if still.Some? {
          UnlinkFile(ProcessedDir, name.value);
        }
        ghost var es := [Unlink(ProcessedDir, name.value)];
        assert ApplyAll(old(State()), es) == ApplyAll(Apply(old(State()), es[0]), es[1..]);
        assert es[1..] == [];
      }
    }

    /**
     * A whole compress request: multer stores the upload, then the handler
     * runs. When the handler fails, the upload stays where multer put it.
     */
    method PostCompress(part: Option<FilePart>, now: nat, requested: Option<string>)
      returns (reply: Result<CompressReply, Error>)
      modifies this
      ensures var received := ReceiveUpload(part, now);
        var s1 := ApplyAll(old(State()), received.1);
        var st := CompressStep(s1, codecs, received.0, requested);
        && reply == st.reply
        && State() == ApplyAll(s1, st.effects)
        && journal == old(journal) + received.1 + st.effects
      ensures part.None? ==> reply == Err(NoFileUploaded) && State() == old(State())
      ensures part.Some? && reply.Err? ==>
        && reply == Err(InvalidAlgorithm(RequestedKey(requested)))
        && uploads == old(uploads)[UploadKey(now, part.value.originalName) := part.value.content]
        && processed == old(processed)
    {
      var file := Receive(part, now);
      reply := Compress(file, requested);
    }

    /** A whole decompress request; a failure likewise keeps the upload. */
    method PostDecompress(part: Option<FilePart>, now: nat) returns (reply: Result<DecompressReply, Error>)
      modifies this
      ensures var received := ReceiveUpload(part, now);
        var s1 := ApplyAll(old(State()), received.1);
        var st := DecompressStep(s1, codecs, received.0);
        && reply == st.reply
        && State() == ApplyAll(s1, st.effects)
        && journal == old(journal) + received.1 + st.effects
      ensures part.None? ==> reply == Err(NoFileUploaded) && State() == old(State())
      ensures part.Some? && reply.Err? ==>
        && (reply == Err(CannotDetectAlgorithm) || reply.error.CodecFailure?)
        && uploads == old(uploads)[UploadKey(now, part.value.originalName) := part.value.content]
        && processed == old(processed)
    {
      var file := Receive(part, now);
      reply := Decompress(file);
    }
  }
}
