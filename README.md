# Verified upload of an XNAT file resource

This project models `ctkXnatFile` from the XNAT core library. A `ctkXnatFile` stands for one file
stored under a resource of an XNAT archive. Most of the model covers its save operation
(`saveImpl`), which works in five steps:

1. It refuses a local file that does not exist.
2. It builds the upload query from the object's metadata.
3. It uploads the file.
4. It fetches the parent resource's catalog and takes the file's checksum from it. The catalog is
   scanned from its last record to its first.
5. It compares that checksum with the MD5 hex digest of the local file. On a mismatch it erases
   the uploaded file and fails.

The project has three modules:

- `PropertyStore` (`property_store.dfy`) is the object's property map. Qt's `QMap` is iterated
  in ascending key order, so the map is modelled as a list of key/value entries whose keys
  strictly ascend. `KeyLess` is the key order, `AsMap` is the map the list stands for, and
  `Lookup` and `Insert` are the map's read and write.
- `XnatUpload` (`xnat_upload.dfy`) holds the pure parts:
  - the four metadata keys;
  - the file URI;
  - the query parameters and their `&key=value` rendering, with values inserted raw and
    unescaped, as the code does;
  - the reverse catalog scan and its loop;
  - the verify-or-skip decision;
  - `SaveTrace`, which gives the outcome of one save and the calls it makes, in order.
- `XnatFile` (`xnat_file.dfy`) holds the class `FileResource`. It has the property list, the
  private local path, the schema type, the parent's URI and the "exists remotely" flag. Its
  setters update the list in place. The query is built by appending to a string in a loop, as
  the source does. The object keeps a ghost event log of its calls on the session and of
  `erase()`. `Save` appends `Upload`, `CatalogGet` and, on a mismatch, `Erase` events to it;
  the `Download` method appends a `Download` event.

The environment is passed in as parameters. This covers whether the local file exists, whether
it can be opened, its MD5 hex digest, and the catalog records. A save reports its result as an
`Outcome`:

- `LocalFileMissing` and `IntegrityMismatch` are the two exceptions the code throws. Each
  carries the exception's message.
- `Verified` means the checksums matched.
- `Skipped` means the upload succeeded but could not be validated. The code logs a warning in
  that case.

The metadata parameters go out in the order the code iterates its `QMap`, which is ascending key
order, not the order in which the keys were set. The code makes no check that the name is
non-empty before an upload, so the model does not require one either.

## Model

| member | source | states |
|---|---|---|
| `XnatFile.FileResource.constructor` | Libs/XNAT/Core/ctkXnatFile.cpp:56-59 | a new file object has an empty property map, an empty local path and an empty event log, and keeps the given parent and schema type |
| `PropertyStore.Lookup` | Libs/XNAT/Core/ctkXnatFile.cpp:73-76 | reading a key gives its binding in the map, or the empty string when the key is unbound |
| `XnatFile.FileResource.SetProperty` | Libs/XNAT/Core/ctkXnatFile.cpp:67-70 | setProperty rebinds one key in the map and leaves every other key's value unchanged, and the keys stay in ascending order |
| `PropertyStore.InsertAsMap` | Libs/XNAT/Core/ctkXnatFile.cpp:67-70 | the list after an insertion stands for the old map with the key rebound |
| `PropertyStore.InsertOrdered` | Libs/XNAT/Core/ctkXnatFile.cpp:171-172 | insertion keeps the keys strictly ascending, so iteration visits them in key order and each key once |
| `PropertyStore.LookupInsert` | Libs/XNAT/Core/ctkXnatFile.cpp:67-112 | after a key is set it reads back the value last set, and every other key reads as before |
| `XnatFile.FileResource.SetName` | Libs/XNAT/Core/ctkXnatFile.cpp:67-76 | name() returns the value just set, the map changes only under "Name", and format, content and tags are unchanged |
| `XnatFile.FileResource.SetFileFormat` | Libs/XNAT/Core/ctkXnatFile.cpp:79-88 | fileFormat() returns the value just set under "file_format", and name, content and tags are unchanged |
| `XnatFile.FileResource.SetFileContent` | Libs/XNAT/Core/ctkXnatFile.cpp:91-100 | fileContent() returns the value just set under "file_content", and name, format and tags are unchanged |
| `XnatFile.FileResource.SetFileTags` | Libs/XNAT/Core/ctkXnatFile.cpp:103-112 | fileTags() returns the value just set under "file_tags", and name, format and content are unchanged |
| `XnatFile.FileResource.SetLocalFilePath` | Libs/XNAT/Core/ctkXnatFile.cpp:115-126 | the local path becomes the given path, and the property map is unchanged |
| `XnatUpload.FileUriParts` | Libs/XNAT/Core/ctkXnatFile.cpp:129-132 | the file URI is the parent's URI, then "/files/", then the name; cut at the parent's length it splits into exactly those three parts |
| `XnatUpload.FileUriNameDetermined` | Libs/XNAT/Core/ctkXnatFile.cpp:129-132 | below a fixed parent, the file URI determines the name: two names giving the same URI are equal |
| `XnatFile.FileResource.Download` | Libs/XNAT/Core/ctkXnatFile.cpp:147-151 | a download makes exactly one session call, to the file's own URI, and does no verification |
| `XnatUpload.ForwardedOrdered` | Libs/XNAT/Core/ctkXnatFile.cpp:171-184 | the forwarded property pairs are in strictly ascending key order |
| `XnatUpload.ForwardedBindings` | Libs/XNAT/Core/ctkXnatFile.cpp:172-183 | every forwarded pair is a binding of the property map, and no forwarded key is file_tags, file_format or file_content |
| `XnatUpload.ForwardedComplete` | Libs/XNAT/Core/ctkXnatFile.cpp:172-184 | every key of the map other than the three reserved ones, "Name" included, is forwarded |
| `XnatUpload.ForwardedOnce` | Libs/XNAT/Core/ctkXnatFile.cpp:172-184 | no key is forwarded twice |
| `XnatUpload.QueryParametersLayout` | Libs/XNAT/Core/ctkXnatFile.cpp:185-194 | after the forwarded pairs come format, content and tags, then overwrite exactly when the file exists remotely, and inbody=true always last |
| `XnatUpload.QueryText` | Libs/XNAT/Core/ctkXnatFile.cpp:157-194 | the query is the file URI, "?xsi:type=" and the schema type, then the forwarded pairs, then the fixed trailer |
| `XnatFile.FileResource.AppendProperties` | Libs/XNAT/Core/ctkXnatFile.cpp:171-184 | the property loop appends exactly the rendering of the forwarded pairs, in order |
| `XnatFile.FileResource.BuildQuery` | Libs/XNAT/Core/ctkXnatFile.cpp:157-194 | the query built by successive appends equals the specified upload query |
| `XnatUpload.RemoteChecksumIsLastMatch` | Libs/XNAT/Core/ctkXnatFile.cpp:205-219 | the remote checksum is the value under the file's name in the record nearest the end that has that key, or "0" when no record has it |
| `XnatUpload.FindRemoteChecksum` | Libs/XNAT/Core/ctkXnatFile.cpp:205-219 | the backward loop with its early break returns the specified remote checksum |
| `XnatUpload.Verify` | Libs/XNAT/Core/ctkXnatFile.cpp:221-240 | the result is a mismatch exactly when the file opens, the remote checksum is not "0" and the digests differ; it is verified exactly when they are equal; otherwise it is skipped |
| `XnatUpload.MissingFileMakesNoCall` | Libs/XNAT/Core/ctkXnatFile.cpp:160-167 | a missing local file fails with its message and makes no upload, no catalog fetch and no erase |
| `XnatUpload.UploadPrecedesCatalogFetch` | Libs/XNAT/Core/ctkXnatFile.cpp:196-203 | for an existing file the upload is the first call and is made once, and the catalog fetch from the parent's URI comes next |
| `XnatUpload.EraseOnlyOnMismatch` | Libs/XNAT/Core/ctkXnatFile.cpp:221-240 | erase is called once, after the upload and the catalog fetch, exactly when the save fails with a mismatch; no other outcome erases anything |
| `XnatUpload.MissingChecksumSkipsVerification` | Libs/XNAT/Core/ctkXnatFile.cpp:205-240 | when no catalog record names the file, the save completes unvalidated, with only the upload and the catalog fetch |
| `XnatFile.FileResource.Save` | Libs/XNAT/Core/ctkXnatFile.cpp:154-243 | the outcome and the calls appended to the log are exactly those of SaveTrace for the object's current query, URI, name and path |

## Left out

- Session transport (`upload`, `download`, `httpGet`, `httpSync`) is HTTP input and output. Each
  call is a ghost log event, and the catalog is a parameter. Errors raised by the session are
  not modelled, because the session is not part of this model, so a failed upload
  (UploadTransportError) has no outcome here.
- MD5 and hex encoding (`QCryptographicHash`) are a foreign library call. The digest of the local
  file is an input string.
- File system access (`QFile::exists`, `open`, `readAll`) is modelled as the inputs
  `present`, `readable` and `md5Hex`. Closing the file is not modelled.
- The warning logged when validation is impossible is not modelled. That case is the `Skipped`
  outcome.
- The internals of the base class `ctkXnatObject` are not part of this model. The property store
  is an ordered map whose unbound keys read as the empty string, which is QMap's `value()`
  behaviour. `exists()` is a boolean field that a save does not change. `erase()` is only an
  `Erase` event. The parent's `resourceUri()` is a constant field.
- `fetchImpl` and `reset` are empty in the source and have no model.
- The text of the overwrite segment is an assumption. The source writes
  `QString("&%1=%2").arg("overwrite", true)`, and the text it renders depends on Qt's overload
  resolution. If `true` binds to the field-width parameter, the text would be `&overwrite=%2`.
  The model uses the fixed segment `&overwrite=true`.
- `PropertyStore.KeyLess` orders keys by Unicode scalar value. QString compares UTF-16 code
  units. The two orders differ only when a key with a character above U+FFFF is compared with a
  key holding a character from U+E000 to U+FFFF at the same position.
- Concurrent saves on the same object are not modelled.
