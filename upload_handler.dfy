/** The outcome of the `/upload` handler: decode the request's base64 payload,
    run the context detector, build the file adapter, and answer either a
    "File received" reply (status 200) or an "Upload failed" reply (status
    500) carrying the thrown error's message. */
module UploadHandler {
  import opened TypedArray
  import opened FileAdapter

  datatype Option<T> = None | Some(value: T)

  /** A value thrown inside the handler's `try` block: an `Error` instance,
      which carries a message, or any other thrown value. */
  datatype Thrown = ErrorInstance(message: string) | OtherValue

  /** What `Buffer.from(fileData, 'base64')` did: produced a Buffer, or threw. */
  datatype Decoded = Decoded(buffer: Buffer) | DecodeThrew(thrown: Thrown)

  /** The JSON body fields of the request; absent ones are `None`. `fileSize`
      is what a client may send along; the handler never reads it. */
  datatype UploadBody = UploadBody(
    fileName: Option<string>,
    creator: Option<string>,
    fileSize: Option<int>,
    fileData: Option<string>)

  /** The handler's two replies. */
  datatype Reply = Received(fileName: Option<string>, fileSize: nat) | Failed(message: string)

  const FileReceived: string := "File received"
  const UploadFailed: string := "Upload failed"
  const UnknownError: string := "Unknown error"

  /** `error instanceof Error ? error.message : "Unknown error"`: an `Error`'s
      own message, and the fixed fallback for any other thrown value. */
  function ErrorMessage(t: Thrown): (m: string)
    ensures t.ErrorInstance? ==> m == t.message
    ensures t.OtherValue? ==> m == UnknownError
  {
    match t
    case ErrorInstance(m) => m
    case OtherValue => UnknownError
  }

  /** The thrown value that ended the `try` block, if any: the decoder's,
      else the context detector's (the adapter and the reply object cannot
      throw). */
  function FirstThrown(d: Decoded, ctx: Option<Thrown>): Option<Thrown> {
    if d.DecodeThrew? then Some(d.thrown) else ctx
  }

  /** The `/upload` handler. `decode` stands for Node's base64 decoder and
      `detectCtx` for the external context detector, whose result (when it
      does not throw) is never used. The file adapter is built, as in the
      source, but nothing consumes it yet. */
  function HandleUpload(
    body: UploadBody,
    decode: Option<string> -> Decoded,
    detectCtx: (Option<string>, Option<string>) -> Option<Thrown>): (reply: Reply)
    ensures var d, t := decode(body.fileData), FirstThrown(decode(body.fileData), detectCtx(body.fileName, body.creator));
      && (reply.Received? <==> d.Decoded? && t.None?)
      && (reply.Received? ==> reply.fileName == body.fileName && reply.fileSize == |Contents(d.buffer)|)
      && (reply.Failed? ==> t.Some? && reply.message == ErrorMessage(t.value))
  {
    match decode(body.fileData)
    case DecodeThrew(t) => Failed(ErrorMessage(t))
    case Decoded(buffer) =>
      match detectCtx(body.fileName, body.creator)
      case Some(t) => Failed(ErrorMessage(t))
      case None =>
        var file := MakeFile(buffer);
        Received(body.fileName, buffer.byteLength)
  }

  /** The HTTP status the reply is sent with: the default 200 for a success,
      500 (set explicitly) for a failure. */
  function Status(reply: Reply): (code: int)
    ensures code == 200 <==> reply.Received?
    ensures code == 500 <==> reply.Failed?
  {
    if reply.Received? then 200 else 500
  }

  /** The keys the handler's reply objects use. */
  datatype Key = SuccessKey | MessageKey | ErrorKey | FileNameKey | FileSizeKey

  /** The JSON values the replies are made of. */
  datatype Json = JBool(b: bool) | JString(s: string) | JNumber(n: int) | JObject(fields: seq<(Key, Json)>)

  /** The object `res.json` serialises; a `fileName` that was absent from the
      request is `undefined` and so does not appear. */
  function ToJson(reply: Reply): (j: Json)
    ensures j.JObject? && |j.fields| >= 3
    ensures j.fields[0] == (SuccessKey, JBool(reply.Received?))
  {
    match reply
    case Received(name, size) =>
      JObject([(SuccessKey, JBool(true)), (MessageKey, JString(FileReceived))]
        + (if name.Some? then [(FileNameKey, JString(name.value))] else [])
        + [(FileSizeKey, JNumber(size))])
    case Failed(message) =>
      JObject([(SuccessKey, JBool(false)), (ErrorKey, JString(UploadFailed)), (MessageKey, JString(message))])
  }

  /** The keys of an object, in order. */
  function Keys(fields: seq<(Key, Json)>): (ks: seq<Key>)
    ensures |ks| == |fields|
    ensures forall i :: 0 <= i < |fields| ==> ks[i] == fields[i].0
  {
    if fields == [] then [] else [fields[0].0] + Keys(fields[1..])
  }

  /** The value of the first field named `key`. */
  function Lookup(fields: seq<(Key, Json)>, key: Key): Option<Json>
  {
    if fields == [] then None
    else if fields[0].0 == key then Some(fields[0].1)
    else Lookup(fields[1..], key)
  }

  /** The reply's JSON is tagged by outcome: `success` is true exactly when
      the status is 200; a success carries the fixed message, the echoed file
      name and the size, a failure the fixed error and the message. */
  lemma {:induction false} ReplyJsonShape(reply: Reply)
    ensures ToJson(reply).JObject?
    ensures var fs := ToJson(reply).fields;
      && Lookup(fs, SuccessKey) == Some(JBool(Status(reply) == 200))
      && (reply.Received? ==>
            && Keys(fs) == [SuccessKey, MessageKey] + (if reply.fileName.Some? then [FileNameKey] else []) + [FileSizeKey]
            && Lookup(fs, MessageKey) == Some(JString(FileReceived))
            && Lookup(fs, FileSizeKey) == Some(JNumber(reply.fileSize))
            && (reply.fileName.Some? ==> Lookup(fs, FileNameKey) == Some(JString(reply.fileName.value))))
      && (reply.Failed? ==>
            && Keys(fs) == [SuccessKey, ErrorKey, MessageKey]
            && Lookup(fs, ErrorKey) == Some(JString(UploadFailed))
            && Lookup(fs, MessageKey) == Some(JString(reply.message)))
  {
    match reply
    case Received(name, size) => ReceivedJsonShape(name, size);
    case Failed(message) => FailedJsonShape(message);
  }

  lemma ReceivedJsonShape(name: Option<string>, size: nat)
    ensures var fs := ToJson(Received(name, size)).fields;
      && Keys(fs) == [SuccessKey, MessageKey] + (if name.Some? then [FileNameKey] else []) + [FileSizeKey]
      && Lookup(fs, SuccessKey) == Some(JBool(true))
      && Lookup(fs, MessageKey) == Some(JString(FileReceived))
      && Lookup(fs, FileSizeKey) == Some(JNumber(size))
      && (name.Some? ==> Lookup(fs, FileNameKey) == Some(JString(name.value)))
  {
    var fs := ToJson(Received(name, size)).fields;
    var last := [(FileSizeKey, JNumber(size))];
    if name.Some? {
      var mid := [(FileNameKey, JString(name.value))] + last;
      assert fs == [(SuccessKey, JBool(true)), (MessageKey, JString(FileReceived))] + mid;
      assert fs[1..][1..] == mid && mid[1..] == last;
      assert Lookup(fs, FileNameKey) == Lookup(fs[1..], FileNameKey) == Lookup(mid, FileNameKey);
      assert Lookup(fs, FileSizeKey) == Lookup(fs[1..], FileSizeKey) == Lookup(mid, FileSizeKey) == Lookup(last, FileSizeKey);
    } else {
      assert fs == [(SuccessKey, JBool(true)), (MessageKey, JString(FileReceived))] + last;
      assert fs[1..][1..] == last;
      assert Lookup(fs, FileSizeKey) == Lookup(fs[1..], FileSizeKey) == Lookup(last, FileSizeKey);
    }
  }

  lemma FailedJsonShape(message: string)
    ensures var fs := ToJson(Failed(message)).fields;
      && Keys(fs) == [SuccessKey, ErrorKey, MessageKey]
      && Lookup(fs, SuccessKey) == Some(JBool(false))
      && Lookup(fs, ErrorKey) == Some(JString(UploadFailed))
      && Lookup(fs, MessageKey) == Some(JString(message))
  {
    var fs := ToJson(Failed(message)).fields;
    var last := [(MessageKey, JString(message))];
    assert fs[1..][1..] == last;
    assert Lookup(fs, MessageKey) == Lookup(fs[1..], MessageKey) == Lookup(last, MessageKey);
  }

  /** The reported `fileSize` is the adapter's `size`, i.e. the decoded
      length, and two requests that differ only in the `fileSize` they
      declare (or in nothing the decoder and detector see) get the same reply. */
  lemma DeclaredSizeIgnored(
    b1: UploadBody, b2: UploadBody,
    decode: Option<string> -> Decoded,
    detectCtx: (Option<string>, Option<string>) -> Option<Thrown>)
    requires b1.fileName == b2.fileName && b1.creator == b2.creator && b1.fileData == b2.fileData
    ensures HandleUpload(b1, decode, detectCtx) == HandleUpload(b2, decode, detectCtx)
    ensures var r, d := HandleUpload(b1, decode, detectCtx), decode(b1.fileData);
      r.Received? ==> r.fileSize == MakeFile(d.buffer).size
  {
  }
}
