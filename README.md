# IPFS uploader: chunk reassembly and handler state, in Dafny

The repository is a React component, `IPFS_UPLOADER`, that starts a Helia
(IPFS) node in the browser, adds a selected file's bytes to it with
`unixfs.addBytes`, shows the resulting CID, and later streams the file back
with `unixfs.cat`, reassembles the chunks into one `Uint8Array`, wraps it in
a `Blob` and offers it as a download link.

This project models the part of that component that is logic of its own:

- `reassembly.dfy`, module `Reassembly`: the retrieve loop that grows a
  buffer chunk by chunk. `Reassemble` keeps the loop over arrays: each
  iteration allocates a new `bv8` array of length old plus chunk
  (`AppendChunk`) and fills it with two copy loops (`CopyInto`, standing in
  for `Uint8Array.prototype.set`). The pure function `Flatten` (the chunks
  concatenated in arrival order) is its specification. Lemmas give its
  length (`TotalLength`), its behaviour on one more chunk, and where each
  byte of each chunk ends up.
- `ipfs_uploader.dfy`, module `IpfsUploader`: the component as a class
  `Uploader` with its four state fields: `nodeReady` (the Helia node is not
  null), `file`, `fileCid` and `retrievedUrl`. The handlers are methods
  whose library results are parameters: whether the `FileReader` succeeded,
  what `addBytes` resolved to, what `cat` streamed, and the object URL.
  Their contracts state the guards. They also state that a field is written
  only when the awaited call succeeds, and that nothing else changes. CID
  truthiness follows JavaScript: an empty CID string counts as absent. Two
  functions give the rendering conditions of the two buttons and relate
  each one to its handler's guard.

About the data path, as the code has it:

- The code concatenates chunks in the order the stream yields them
  (components/ipfs_uploader.js:115-120). It keeps no chunk ordinals and
  does not re-hash the result against the CID.
- The upload reads the file with `readAsArrayBuffer`
  (components/ipfs_uploader.js:102) and passes the raw bytes to `addBytes`
  (line 92). `Upload`'s `submitted` is the file content unchanged.

## Model

| member | source | states |
|---|---|---|
| Reassembly.Reassemble | components/ipfs_uploader.js:114-121 | returns a newly allocated array: starting from an empty buffer and appending every chunk, the final buffer equals the chunks concatenated in arrival order and its length is the sum of the chunk lengths; a stream with no chunks leaves the empty buffer |
| Reassembly.AppendChunk | components/ipfs_uploader.js:117-120 | the new buffer is freshly allocated, has length old length plus chunk length, holds the old buffer unchanged in `[0, old.length)` and the chunk exactly in `[old.length, new.length)` |
| Reassembly.CopyInto | components/ipfs_uploader.js:118-119 | `temp.set(src, offset)`: `src` is copied to `dst` at `offset`, and every element outside `[offset, offset + src.length)` is unchanged |
| Reassembly.FlattenLength | components/ipfs_uploader.js:117 | the length of the reassembled buffer is the sum of the chunk lengths |
| Reassembly.FlattenSnoc | components/ipfs_uploader.js:117-120 | taking in one more chunk appends exactly that chunk to the buffer built so far; this is the loop step the invariant rests on |
| Reassembly.FlattenAt | components/ipfs_uploader.js:115-121 | byte `k` of the `j`-th chunk yielded lands at offset (total length of chunks `0..j-1`) + `k` of the result: chunks are placed in arrival order |
| IpfsUploader.Uploader.constructor | components/ipfs_uploader.js:19-22 | all four state fields start null, so the Add button starts disabled and the Retrieve button hidden (the "disabled when no file is selected" test) |
| IpfsUploader.Uploader.AddButtonDisabled | components/ipfs_uploader.js:157 | the Add button is disabled exactly when `handleUpload`'s guard (node and file present) fails |
| IpfsUploader.Uploader.RetrieveButtonShown | components/ipfs_uploader.js:166-170 | in every reachable state the Retrieve button is shown exactly when `handleRetrieve`'s guard (node and a truthy CID) holds |
| IpfsUploader.Uploader.NodeInitialized | components/ipfs_uploader.js:67-71 | the node becomes ready only when start-up succeeded; a failure is only logged; no other field changes |
| IpfsUploader.Uploader.SelectFile | components/ipfs_uploader.js:77-80 | the picked file, or none, becomes the selected file; no other field changes |
| IpfsUploader.Uploader.Upload | components/ipfs_uploader.js:83-106 | without node and file nothing changes and nothing is submitted; otherwise the file's exact bytes go to `addBytes` if the read succeeds; `fileCid` becomes the CID string only if `addBytes` resolved and is otherwise unchanged; node, file and URL never change |
| IpfsUploader.Uploader.Retrieve | components/ipfs_uploader.js:109-139 | without node and truthy CID nothing changes; otherwise `cat` is asked for the recorded CID; a Blob of the reassembled chunks, typed with the file's media type, is built and its URL recorded only when the stream finished and a file is still selected; a failure leaves `retrievedUrl` unchanged; the other fields never change |

## Left out

- Creating the libp2p and Helia node (components/ipfs_uploader.js:25-66) is out of scope. The WebSockets transport, Noise encryption, yamux multiplexing and bootstrap discovery are configuration handed to libraries whose code is not part of this model. Only the outcome of start-up (`NodeInitialized`) is modelled.
- CID computation and block storage inside `addBytes` and `cat` are foreign calls. Their results are method parameters, no hashing is modelled, and nothing ties what `cat` streams to what `addBytes` stored. `cat` is handed the CID's string form; whether the library accepts it is decided by code outside the model and shows up only as one of the two stream outcomes.
- `URL.createObjectURL` is a browser call. The URL it returns is the `url` parameter of `Retrieve`.
- `Blob`'s own normalisation of the `type` option (lower-casing, dropping non-printable types) is browser behaviour. The model keeps the file's media type as given.
- Console logging is not modelled. Errors and warnings only log, so they appear only as "no state change".
- `for await`/`async` scheduling is not modelled. The stream is a finite sequence that is already complete. A stream that throws is `CatFailed`; chunks it yielded before throwing are discarded by the source anyway.
- IpfsUploader.Uploader.Upload: the `FileReader` callback and the awaited `addBytes` are treated as finishing inside the one call. State changes that another handler could make between the guard and `onload` are not modelled.
- The download link's file name (`file?.name || 'retrievedFile'`, line 175) and the rest of the JSX are rendering only.
- components/ipfs_ui.js is a second, UI-only component. Its one piece of logic is a null check on the picked file.
- `digestMessage` is imported by a test, but no implementation of it exists in the repository. There is nothing to model.
- The Jest mocks and configuration are test scaffolding.
