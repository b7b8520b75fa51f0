/**
 * The upload/retrieve component as a small state machine.
 *
 * The component keeps four pieces of state: the Helia node (present once
 * start-up succeeded), the selected file, the CID string of the last
 * upload and the object URL of the last retrieval. The handlers guard on
 * JavaScript truthiness of that state, write a field only when the library
 * call they await succeeds, and only log on failure. The library calls
 * (`fs.addBytes`, `fs.cat`, `URL.createObjectURL`) are foreign: their
 * outcomes are parameters of the methods.
 */
module IpfsUploader {
  import opened Reassembly

  datatype Option<T> = None | Some(value: T)

  /** A file picked in the file input: its name, declared media type and
      the bytes `FileReader.readAsArrayBuffer` delivers. */
  datatype File = File(name: string, mediaType: string, content: seq<bv8>)

  /** The `Blob` built from the retrieved bytes, typed with the selected
      file's media type. */
  datatype Blob = Blob(bytes: seq<bv8>, mediaType: string)

  /** What `await fs.addBytes(bytes)` does: resolve to a CID, given here by
      its string form, or reject. */
  datatype AddOutcome = Added(cid: string) | AddFailed

  /** What `for await (const chunk of fs.cat(fileCid))` does: yield a
      finite sequence of chunks and finish, or throw. */
  datatype CatOutcome = Streamed(chunks: seq<Chunk>) | CatFailed

  class Uploader {
    /** `heliaNode` is not null. */
    var nodeReady: bool
    var file: Option<File>
    var fileCid: Option<string>
    var retrievedUrl: Option<string>

    /** A CID is only ever recorded by an upload, which needs the node, and
        a URL only by a retrieval, which needs a CID. */
    ghost predicate Valid()
      reads this
    {
      && (fileCid.Some? ==> nodeReady)
      && (retrievedUrl.Some? ==> fileCid.Some?)
    }

    /** JavaScript truthiness of `fileCid`: not null and not the empty
        string. */
    predicate CidPresent()
      reads this
    {
      fileCid.Some? && fileCid.value != ""
    }

    /** The condition `heliaNode && file` that `handleUpload` tests. */
    predicate UploadGuard()
      reads this
    {
      nodeReady && file.Some?
    }

    /** The condition `heliaNode && fileCid` that `handleRetrieve` tests. */
    predicate RetrieveGuard()
      reads this
    {
      nodeReady && CidPresent()
    }

    /** `disabled={!heliaNode || !file}` on the "Add to IPFS" button: the
        button is disabled exactly when `handleUpload` would only warn. */
    function AddButtonDisabled(): (disabled: bool)
      reads this
      ensures disabled <==> !UploadGuard()
    {
      !nodeReady || file.None?
    }

    /** `{fileCid && <Button .../>}`: the retrieve button is rendered only
        for a truthy CID, and in a reachable state that is exactly when
        `handleRetrieve` would act. */
    function RetrieveButtonShown(): (shown: bool)
      reads this
      requires Valid()
      ensures shown <==> RetrieveGuard()
    {
      CidPresent()
    }

    /** The mounted component: every `useState(null)` holds null. */
    constructor ()
      ensures Valid()
      ensures !nodeReady && file == None && fileCid == None && retrievedUrl == None
      ensures AddButtonDisabled() && !RetrieveButtonShown()
    {
      nodeReady := false;
      file := None;
      fileCid := None;
      retrievedUrl := None;
    }

    /** The end of `initHelia`: `setHeliaNode(node)` when creating the node
        succeeded; an error is only logged. */
    method NodeInitialized(ok: bool)
      requires Valid()
      modifies this
      ensures Valid()
      ensures nodeReady == (old(nodeReady) || ok)
      ensures file == old(file) && fileCid == old(fileCid) && retrievedUrl == old(retrievedUrl)
    {
      if ok {
        nodeReady := true;
      }
    }

    /** `handleFileChange`: the file input's first file, or `undefined` when
        the picker returned none, becomes the selected file. */
    method SelectFile(selected: Option<File>)
      requires Valid()
      modifies this
      ensures Valid()
      ensures file == selected
      ensures nodeReady == old(nodeReady) && fileCid == old(fileCid) && retrievedUrl == old(retrievedUrl)
    {
      file := selected;
    }

    /** `handleUpload`. Without a node and a file it only warns. Otherwise
        it reads the file (`readOk` says whether the `FileReader` called
        `onload` or `onerror`), hands the file's bytes to `fs.addBytes`,
        returned here as `submitted`, and records the CID string only if
        that call resolved. */
    method Upload(readOk: bool, added: AddOutcome) returns (submitted: Option<seq<bv8>>)
      requires Valid()
      modifies this
      ensures Valid()
      ensures !old(UploadGuard()) ==> submitted == None && unchanged(this)
      ensures old(UploadGuard()) ==> (submitted.Some? <==> readOk)
      ensures submitted.Some? ==> submitted.value == old(file).value.content
      ensures added.Added? && submitted.Some? ==> fileCid == Some(added.cid)
      ensures !(added.Added? && submitted.Some?) ==> fileCid == old(fileCid)
      ensures nodeReady == old(nodeReady) && file == old(file) && retrievedUrl == old(retrievedUrl)
    {
      submitted := None;
      if nodeReady && file.Some? {
        if readOk {
          var bytes := file.value.content;
          submitted := Some(bytes);
          match added
          case Added(cid) =>
            fileCid := Some(cid);
          case AddFailed =>
        }
      }
    }

    /** `handleRetrieve`. Without a node and a truthy CID it only warns.
        Otherwise it asks `fs.cat` for the recorded CID (returned as
        `requested`), reassembles the streamed chunks, builds a `Blob` typed
        with the selected file's media type and records `url`, the object
        URL created for it. A failing stream is caught and only logged, and
        so is the `TypeError` of reading `file.type` when no file is
        selected any more; in both cases no URL is recorded. */
    method Retrieve(stream: CatOutcome, url: string) returns (requested: Option<string>, blob: Option<Blob>)
      requires Valid()
      modifies this
      ensures Valid()
      ensures old(RetrieveGuard()) ==> requested == old(fileCid)
      ensures !old(RetrieveGuard()) ==> requested == None && blob == None && unchanged(this)
      ensures blob.Some? <==> old(RetrieveGuard()) && stream.Streamed? && old(file).Some?
      ensures blob.Some? ==> blob.value.bytes == Flatten(stream.chunks)
      ensures blob.Some? ==> |blob.value.bytes| == TotalLength(stream.chunks)
      ensures blob.Some? ==> blob.value.mediaType == old(file).value.mediaType
      ensures blob.Some? ==> retrievedUrl == Some(url)
      ensures blob.None? ==> retrievedUrl == old(retrievedUrl)
      ensures nodeReady == old(nodeReady) && file == old(file) && fileCid == old(fileCid)
    {
      requested, blob := None, None;
      if nodeReady && CidPresent() {
        requested := fileCid;
        match stream
        case Streamed(chunks) =>
          var retrievedBytes := Reassemble(chunks);
          if file.Some? {
            blob := Some(Blob(retrievedBytes[..], file.value.mediaType));
            retrievedUrl := Some(url);
          }
        case CatFailed =>
      }
    }
  }

  /** The component test's two button scenarios (with the node up): the
      "Add to IPFS" button is disabled while no file is selected and enabled
      once one is. Beyond them, an upload followed by a retrieval hands back
      the streamed bytes. */
  method Scenario(f: File, cid: string, chunks: seq<Chunk>, url: string)
    requires cid != ""
  {
    var u := new Uploader();
    assert u.AddButtonDisabled();
    u.NodeInitialized(true);
    assert u.AddButtonDisabled();
    u.SelectFile(Some(f));
    assert !u.AddButtonDisabled();
    var submitted := u.Upload(true, Added(cid));
    assert submitted == Some(f.content) && u.fileCid == Some(cid);
    assert u.RetrieveButtonShown();
    var requested, blob := u.Retrieve(Streamed(chunks), url);
    assert requested == Some(cid);
    assert blob == Some(Blob(Flatten(chunks), f.mediaType));
    assert u.retrievedUrl == Some(url);
  }
}
