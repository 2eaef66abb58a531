/** The one pathway that writes an uploaded file to disk. */
module Upload {
  import opened Prelude

  newtype byte = x: int | 0 <= x < 256
  newtype int64 = x: int | -0x8000_0000_0000_0000 <= x < 0x8000_0000_0000_0000

  const MAGIC_SNIFF_BYTES: int64 := 512

  /** A cap of zero or less means no cap. */
  datatype Rules = Rules(maxBytes: int64, allowedMimes: map<string, string>)

  /**
   * One multipart part: the size the parser declares, the bytes it streams, the type
   * the client claims, and what sanitising its file name gives (None when nothing is left).
   */
  datatype Part = Part(declaredSize: int64, content: seq<byte>, claimed: string, original: Option<string>)

  /** How the fallible operations turn out; a failing read, write or copy may already have moved some bytes. */
  datatype Io = Io(
    openOk: bool,
    readOk: bool,
    mkdirOk: bool,
    createOk: bool,
    headFailsAfter: Option<nat>,
    copyFailsAfter: Option<nat>,
    removeOk: bool)

  datatype SaveError =
    | DeclaredTooLarge | OpenFailed | ReadFailed | EmptyFile | MimeNotAllowed | MimeMismatch
    | FilenameInvalid | MkdirFailed | CreateFailed | WriteFailed | CopyFailed | TooLarge

  datatype Saved = Saved(path: string, mime: string, original: string, sizeBytes: int64)

  function Head(content: seq<byte>): (h: seq<byte>)
    ensures |h| <= MAGIC_SNIFF_BYTES as int && h <= content
    ensures |content| <= 512 ==> h == content
    ensures |content| > 512 ==> |h| == 512
  {
    if |content| <= MAGIC_SNIFF_BYTES as int then content else content[..MAGIC_SNIFF_BYTES]
  }

  /** The longest prefix of `s` with at most `n` elements. */
  function Prefix(s: seq<byte>, n: int): (p: seq<byte>)
    ensures p <= s && (n >= |s| ==> p == s) && (0 <= n <= |s| ==> |p| == n) && (n < 0 ==> p == [])
  {
    if n < 0 then [] else if n >= |s| then s else s[..n]
  }

  /** What an uncapped copy asks for beyond the head. */
  const UNCAPPED: int64 := 0x4000_0000_0000_0000

  /** What a successful save leaves: the whole source under a cap, and without one as much as the copy asks for. */
  function Stored(maxBytes: int64, content: seq<byte>): (s: seq<byte>)
    ensures s == content <==> maxBytes > 0 || |content| <= 512 + 0x4000_0000_0000_0000
    ensures s <= content && (s == content || |s| == 512 + 0x4000_0000_0000_0000)
  {
    if maxBytes > 0 then content else Prefix(content, MAGIC_SNIFF_BYTES as int + UNCAPPED as int)
  }

  /** Checks made before any file is created, in order. */
  function Refusal(rules: Rules, part: Part, mime: string, io: Io): Option<SaveError> {
    if rules.maxBytes > 0 && part.declaredSize > rules.maxBytes then Some(DeclaredTooLarge)
    else if !io.openOk then Some(OpenFailed)
    else if !io.readOk then Some(ReadFailed)
    else if part.content == [] then Some(EmptyFile)
    else if mime !in rules.allowedMimes then Some(MimeNotAllowed)
    else if part.claimed != "" && part.claimed != mime && part.claimed in rules.allowedMimes then Some(MimeMismatch)
    else if part.original.None? then Some(FilenameInvalid)
    else if !io.mkdirOk then Some(MkdirFailed)
    else None
  }

  class FileStore {
    var files: map<string, seq<byte>>

    /** io.CopyN onto the end of a file: at most `n` bytes, fewer when the source ends; `n <= 0` copies nothing. */
    method CopyN(path: string, rest: seq<byte>, n: int64, failsAfter: Option<nat>) returns (copied: int64, ok: bool)
      requires path in files && |rest| < 0x8000_0000_0000_0000
      modifies this
      ensures files.Keys == old(files).Keys && forall p :: p in files && p != path ==> files[p] == old(files)[p]
      ensures copied >= 0 && ok == (failsAfter.None? || n <= 0)
      ensures ok ==> files[path] == old(files)[path] + Prefix(rest, n as int) && copied as int == |Prefix(rest, n as int)|
    {
      if n <= 0 {
        assert Prefix(rest, n as int) == [];
        assert files[path] == files[path] + [];
        return 0, true;
      }
      if failsAfter.Some? {
        var part := Prefix(Prefix(rest, n as int), failsAfter.value);
        files := files[path := files[path] + part];
        return |part| as int64, false;
      }
      var chunk := Prefix(rest, n as int);
      files := files[path := files[path] + chunk];
      return |chunk| as int64, true;
    }

    /** The deferred clean-up of a write that did not finish. */
    method Discard(path: string, removeOk: bool)
      modifies this
      ensures files == if removeOk then old(files) - {path} else old(files)
    {
      if removeOk {
        files := files - {path};
      }
    }

    /** Writes the head and then the rest under the cap, into a file that was just created. */
    method Stream(maxBytes: int64, path: string, content: seq<byte>, io: Io) returns (r: Result<int64, SaveError>)
      requires path in files && files[path] == [] && content != [] && |content| < 0x8000_0000_0000_0000
      modifies this
      ensures files.Keys == old(files).Keys && forall p :: p in files && p != path ==> files[p] == old(files)[p]
      ensures r.Ok? ==> files[path] == Stored(maxBytes, content) && r.value as int == |files[path]|
      ensures r.Ok? ==> maxBytes <= 0 || |content| <= maxBytes as int
      ensures r.Err? ==> r.error in {WriteFailed, CopyFailed, TooLarge} && (r.error == TooLarge ==> 0 < maxBytes && |content| > maxBytes as int)
      ensures io.headFailsAfter.None? && io.copyFailsAfter.None? ==>
        if maxBytes <= 0 || |content| <= maxBytes as int then r.Ok? else r == Err(TooLarge)
    {
      var head := Head(content);
      if io.headFailsAfter.Some? {
        files := files[path := Prefix(head, io.headFailsAfter.value)];
        return Err(WriteFailed);
      }
      files := files[path := head];
      var written: int64 := |head| as int64;
      var remaining: int64;
      if maxBytes > 0 {
        remaining := maxBytes - written + 1;
      } else {
        remaining := UNCAPPED;
      }
      var rest := content[|head|..];
      assert content == head + rest;
      var m, ok := CopyN(path, rest, remaining, io.copyFailsAfter);
      if !ok {
        return Err(CopyFailed);
      }
      written := written + m;
      if maxBytes > 0 && written > maxBytes {
        return Err(TooLarge);
      }
      assert files[path] == head + Prefix(rest, remaining as int);
      assert maxBytes > 0 ==> Prefix(rest, remaining as int) == rest;
      assert maxBytes <= 0 ==> files[path] == Stored(maxBytes, content);
      return Ok(written);
    }

    /**
     * Save. On success the new file is, under a cap, byte for byte the whole source and
     * within the cap, and nothing else changed. On failure nothing is left behind, unless removing the
     * half-written file itself fails.
     */
    method Save(rules: Rules, part: Part, path: string, detect: seq<byte> -> string, io: Io) returns (r: Result<Saved, SaveError>)
      requires |part.content| < 0x8000_0000_0000_0000
      modifies this
      ensures r.Ok? ==> path !in old(files) && files == old(files)[path := Stored(rules.maxBytes, part.content)]
      ensures r.Ok? ==> r.value.path == path && Some(r.value.original) == part.original
      ensures r.Ok? ==>
        && (rules.maxBytes <= 0 || (part.declaredSize <= rules.maxBytes && |part.content| <= rules.maxBytes as int))
        && io.openOk && io.readOk && io.mkdirOk && io.createOk && part.content != []
        && (part.claimed == "" || part.claimed == r.value.mime || part.claimed !in rules.allowedMimes)
      ensures
        var mime := detect(Head(part.content));
        && rules.maxBytes <= 0 && io == Io(true, true, true, true, None, None, io.removeOk) && path !in old(files) && part.content != []
        && mime in rules.allowedMimes && (part.claimed == "" || part.claimed == mime || part.claimed !in rules.allowedMimes) && part.original.Some?
        ==> r.Ok?
      ensures r == Err(EmptyFile) ==> part.content == []
      ensures r == Err(MimeNotAllowed) ==> detect(Head(part.content)) !in rules.allowedMimes
      ensures r == Err(MimeMismatch) ==> part.claimed != "" && part.claimed != detect(Head(part.content)) && part.claimed in rules.allowedMimes
      ensures r == Err(FilenameInvalid) ==> part.original == None
      ensures r == Err(TooLarge) ==> 0 < rules.maxBytes && |part.content| > rules.maxBytes as int
      ensures 0 < rules.maxBytes < part.declaredSize ==> r == Err(DeclaredTooLarge)
      ensures r.Ok? ==> r.value.sizeBytes as int == |files[path]| && (rules.maxBytes > 0 ==> r.value.sizeBytes <= rules.maxBytes)
      ensures r.Ok? ==> r.value.mime == detect(Head(part.content)) && r.value.mime in rules.allowedMimes
      ensures r.Err? && io.removeOk ==> files == old(files)
      ensures r.Err? ==> files.Keys <= old(files).Keys + {path} && forall p :: p in old(files) ==> p in files && files[p] == old(files)[p]
      ensures Refusal(rules, part, detect(Head(part.content)), io).Some? ==> r == Err(Refusal(rules, part, detect(Head(part.content)), io).value)
      ensures Refusal(rules, part, detect(Head(part.content)), io).None? && path !in old(files) && io.createOk && io.headFailsAfter.None? && io.copyFailsAfter.None? ==>
        (r.Ok? <==> rules.maxBytes <= 0 || |part.content| <= rules.maxBytes as int)
    {
      hide Stored, Head;
      if rules.maxBytes > 0 && part.declaredSize > rules.maxBytes {
        return Err(DeclaredTooLarge);
      }
      if !io.openOk {
        return Err(OpenFailed);
      }
      if !io.readOk {
        return Err(ReadFailed);
      }
      var head := Head(part.content);
      if |head| == 0 {
        return Err(EmptyFile);
      }
      var detected := detect(head);
      if detected !in rules.allowedMimes {
        return Err(MimeNotAllowed);
      }
      if part.claimed != "" && part.claimed != detected {
        if part.claimed in rules.allowedMimes {
          return Err(MimeMismatch);
        }
      }
      if part.original.None? {
        return Err(FilenameInvalid);
      }
      if !io.mkdirOk {
        return Err(MkdirFailed);
      }
      if path in files || !io.createOk {
        return Err(CreateFailed);
      }
      ghost var before := files;
      files := files[path := []];
      var streamed := Stream(rules.maxBytes, path, part.content, io);
      if streamed.Err? {
        Discard(path, io.removeOk);
        return Err(streamed.error);
      }
      return Ok(Saved(path, detected, part.original.value, streamed.value));
    }
  }
}
