/**
 * The pure parts of uploading a file to an XNAT archive: the query the
 * upload is sent with, the reverse scan of the parent's catalog for the
 * file's checksum, the verify-or-rollback decision, and the sequence of
 * transport calls one save attempt makes.
 */
module XnatUpload {
  import opened PropertyStore

  // The four property keys the file's metadata is stored under.
  const FILE_NAME := "Name"
  const FILE_TAGS := "file_tags"
  const FILE_FORMAT := "file_format"
  const FILE_CONTENT := "file_content"

  /** The value a catalog scan yields when no record names the file. */
  const NO_CHECKSUM := "0"

  const OVERWRITE := Entry("overwrite", "true")
  const INBODY := Entry("inbody", "true")

  /** The URI of a file resource below its parent resource. */
  function FileUri(parentUri: string, name: string): string
  {
    parentUri + "/files/" + name
  }

  /** The file's URI splits at the parent's length into the parent's URI, "/files/" and the name. */
  lemma FileUriParts(parentUri: string, name: string)
    ensures |FileUri(parentUri, name)| == |parentUri| + 7 + |name|
    ensures FileUri(parentUri, name)[..|parentUri|] == parentUri
    ensures FileUri(parentUri, name)[|parentUri|..|parentUri| + 7] == "/files/"
    ensures FileUri(parentUri, name)[|parentUri| + 7..] == name
  {
  }

  /** Below a fixed parent, two files with the same URI have the same name. */
  lemma FileUriNameDetermined(parentUri: string, name1: string, name2: string)
    requires FileUri(parentUri, name1) == FileUri(parentUri, name2)
    ensures name1 == name2
  {
    FileUriParts(parentUri, name1);
    FileUriParts(parentUri, name2);
  }

  /** The three keys uploaded under other parameter names (format, content, tags). */
  predicate Reserved(key: string)
  {
    key == FILE_TAGS || key == FILE_FORMAT || key == FILE_CONTENT
  }

  /** One query parameter as appended to the query: "&key=value", unescaped. */
  function Segment(e: Entry): string
  {
    "&" + e.key + "=" + e.value
  }

  function Segments(ps: seq<Entry>): string
  {
    if ps == [] then "" else Segments(ps[..|ps| - 1]) + Segment(ps[|ps| - 1])
  }

  /** The properties sent under their own key, in iteration order: all but the reserved ones. */
  function Forwarded(p: Properties): (r: Properties)
    ensures forall i :: 0 <= i < |r| ==> r[i] in p && !Reserved(r[i].key)
  {
    if p == [] then []
    else Forwarded(p[..|p| - 1]) + (if Reserved(p[|p| - 1].key) then [] else [p[|p| - 1]])
  }

  /** Forwarding keeps the ascending key order of the store. */
  lemma {:induction false} ForwardedOrdered(p: Properties)
    requires Ordered(p)
    ensures Ordered(Forwarded(p))
  {
    if p != [] {
      var init, last := p[..|p| - 1], p[|p| - 1];
      assert Ordered(init);
      ForwardedOrdered(init);
      var f, fi := Forwarded(p), Forwarded(init);
      forall i, j | 0 <= i < j < |f| ensures KeyLess(f[i].key, f[j].key) {
        if j < |fi| {
          assert f[i] == fi[i] && f[j] == fi[j];
        } else {
          assert f[i] == fi[i] && f[j] == last;
          var k :| 0 <= k < |init| && init[k] == fi[i];
          assert p[k] == fi[i];
        }
      }
    }
  }

  /** Every forwarded pair is the store's binding of its key, and no reserved key is forwarded. */
  lemma ForwardedBindings(p: Properties)
    requires Ordered(p)
    ensures forall i :: 0 <= i < |Forwarded(p)| ==>
      && !Reserved(Forwarded(p)[i].key)
      && Forwarded(p)[i].key in AsMap(p) && AsMap(p)[Forwarded(p)[i].key] == Forwarded(p)[i].value
  {
    var f := Forwarded(p);
    forall i | 0 <= i < |f|
      ensures f[i].key in AsMap(p) && AsMap(p)[f[i].key] == f[i].value
    {
      var k :| 0 <= k < |p| && p[k] == f[i];
      OrderedEntryInMap(p, k);
    }
  }

  /** Every key of the store that is not reserved is forwarded. */
  lemma {:induction false} ForwardedComplete(p: Properties)
    ensures forall key :: key in AsMap(p) && !Reserved(key) ==>
      exists i :: 0 <= i < |Forwarded(p)| && Forwarded(p)[i].key == key
  {
    if p != [] {
      var init, last := p[..|p| - 1], p[|p| - 1];
      ForwardedComplete(init);
      var f, fi := Forwarded(p), Forwarded(init);
      forall key | key in AsMap(p) && !Reserved(key)
        ensures exists i :: 0 <= i < |Forwarded(p)| && Forwarded(p)[i].key == key
      {
        AsMapKeys(p, key);
        var k :| 0 <= k < |p| && p[k].key == key;
        if k == |p| - 1 {
          assert f == fi + [last];
          assert f[|fi|].key == key;
        } else {
          assert init[k].key == key;
          AsMapKeys(init, key);
          var i :| 0 <= i < |fi| && fi[i].key == key;
          assert f[i] == fi[i];
        }
      }
      assert forall key :: key in AsMap(p) && !Reserved(key) ==>
        exists i :: 0 <= i < |Forwarded(p)| && Forwarded(p)[i].key == key;
    }
  }

  /** Two forwarded parameters never share a key. */
  lemma ForwardedOnce(p: Properties, i: int, j: int)
    requires Ordered(p)
    requires 0 <= i < |Forwarded(p)| && 0 <= j < |Forwarded(p)|
    requires Forwarded(p)[i].key == Forwarded(p)[j].key
    ensures i == j
  {
    ForwardedOrdered(p);
    KeyLessIrreflexive(Forwarded(p)[i].key);
  }

  /**
   * The parameters after "?xsi:type=": the forwarded properties, then format,
   * content and tags, then overwrite for a file that already exists remotely,
   * and always inbody last.
   */
  function QueryParameters(p: Properties, existsRemotely: bool): seq<Entry>
  {
    Forwarded(p)
    + [Entry("format", Lookup(p, FILE_FORMAT))]
    + [Entry("content", Lookup(p, FILE_CONTENT))]
    + [Entry("tags", Lookup(p, FILE_TAGS))]
    + (if existsRemotely then [OVERWRITE] else [])
    + [INBODY]
  }

  /**
   * The parameters are the forwarded properties, then format, content and
   * tags, then overwrite exactly when the file exists remotely, and inbody last.
   */
  lemma QueryParametersLayout(p: Properties, existsRemotely: bool)
    ensures var ps, n := QueryParameters(p, existsRemotely), |Forwarded(p)|;
      && |ps| == n + (if existsRemotely then 5 else 4)
      && ps[..n] == Forwarded(p)
      && ps[n] == Entry("format", Lookup(p, FILE_FORMAT))
      && ps[n + 1] == Entry("content", Lookup(p, FILE_CONTENT))
      && ps[n + 2] == Entry("tags", Lookup(p, FILE_TAGS))
      && ps[n + 3..] == if existsRemotely then [OVERWRITE, INBODY] else [INBODY]
  {
  }

  /** The upload query for a file at resourceUri. */
  function Query(resourceUri: string, schemaType: string, p: Properties, existsRemotely: bool): string
  {
    resourceUri + "?xsi:type=" + schemaType + Segments(QueryParameters(p, existsRemotely))
  }

  /** The query as text: the prefix, the forwarded pairs, the fixed trailer. */
  lemma QueryText(resourceUri: string, schemaType: string, p: Properties, existsRemotely: bool)
    ensures Query(resourceUri, schemaType, p, existsRemotely)
      == resourceUri + "?xsi:type=" + schemaType + Segments(Forwarded(p))
         + TrailerText(Lookup(p, FILE_FORMAT), Lookup(p, FILE_CONTENT), Lookup(p, FILE_TAGS), existsRemotely)
  {
    TrailerSegments(Forwarded(p), Lookup(p, FILE_FORMAT), Lookup(p, FILE_CONTENT), Lookup(p, FILE_TAGS),
                    existsRemotely);
  }

  lemma TrailerSegments(s0: seq<Entry>, format: string, content: string, tags: string, existsRemotely: bool)
    ensures Segments(s0 + [Entry("format", format)] + [Entry("content", content)] + [Entry("tags", tags)]
                     + (if existsRemotely then [OVERWRITE] else []) + [INBODY])
      == Segments(s0) + TrailerText(format, content, tags, existsRemotely)
  {
    var ow: seq<Entry> := if existsRemotely then [OVERWRITE] else [];
    var s1 := s0 + [Entry("format", format)];
    var s2 := s1 + [Entry("content", content)];
    var s3 := s2 + [Entry("tags", tags)];
    var s4 := s3 + ow;
    var head := Segments(s0);
    var t1 := Segment(Entry("format", format));
    var t2 := t1 + Segment(Entry("content", content));
    var t3 := t2 + Segment(Entry("tags", tags));
    var t4 := t3 + (if existsRemotely then Segment(OVERWRITE) else "");
    SegmentsSnoc(s0, Entry("format", format));
    SegmentsSnoc(s1, Entry("content", content));
    ConcatAssoc(head, t1, Segment(Entry("content", content)));
    SegmentsSnoc(s2, Entry("tags", tags));
    ConcatAssoc(head, t2, Segment(Entry("tags", tags)));
    if existsRemotely {
      SegmentsSnoc(s3, OVERWRITE);
      ConcatAssoc(head, t3, Segment(OVERWRITE));
    } else {
      assert s4 == s3 && t4 == t3;
    }
    SegmentsSnoc(s4, INBODY);
    ConcatAssoc(head, t4, Segment(INBODY));
  }

  lemma ConcatAssoc(a: string, b: string, c: string)
    ensures (a + b) + c == a + (b + c)
  {
  }

  /** The fixed trailer of every upload query, as text. */
  function TrailerText(format: string, content: string, tags: string, existsRemotely: bool): string
  {
    Segment(Entry("format", format)) + Segment(Entry("content", content)) + Segment(Entry("tags", tags))
    + (if existsRemotely then Segment(OVERWRITE) else "") + Segment(INBODY)
  }

  /** Appending a parameter appends its segment. */
  lemma SegmentsSnoc(ps: seq<Entry>, e: Entry)
    ensures Segments(ps + [e]) == Segments(ps) + Segment(e)
  {
  }

  /** A query that renders the parameters sent so far renders one more after one more append. */
  lemma AppendSegment(query: string, head: string, sent: seq<Entry>, e: Entry)
    requires query == head + Segments(sent)
    ensures query + Segment(e) == head + Segments(sent + [e])
  {
  }

  /** A catalog record of the parent resource: file names to checksums, among other columns. */
  type Record = map<string, string>

  /** The value under name in the last record that has that key, or "0" if none has it. */
  function RemoteChecksum(catalog: seq<Record>, name: string): string
  {
    if catalog == [] then NO_CHECKSUM
    else if name in catalog[|catalog| - 1] then catalog[|catalog| - 1][name]
    else RemoteChecksum(catalog[..|catalog| - 1], name)
  }

  /** The scan answers with the record nearest the end that names the file, or "0". */
  lemma {:induction false} RemoteChecksumIsLastMatch(catalog: seq<Record>, name: string)
    ensures (forall i :: 0 <= i < |catalog| ==> name !in catalog[i]) ==>
      RemoteChecksum(catalog, name) == NO_CHECKSUM
    ensures forall i :: 0 <= i < |catalog| && name in catalog[i] ==>
      (forall j :: i < j < |catalog| ==> name !in catalog[j]) ==>
      RemoteChecksum(catalog, name) == catalog[i][name]
  {
    if catalog != [] {
      var init := catalog[..|catalog| - 1];
      RemoteChecksumIsLastMatch(init, name);
      if name !in catalog[|catalog| - 1] {
        forall i | 0 <= i < |catalog| - 1 ensures init[i] == catalog[i] { }
      }
    }
  }

  /** The backwards scan of saveImpl, breaking at the first record from the end that names the file. */
  method FindRemoteChecksum(catalog: seq<Record>, name: string) returns (checksum: string)
    ensures checksum == RemoteChecksum(catalog, name)
  {
    checksum := NO_CHECKSUM;
    var i := |catalog|;
    assert catalog[..i] == catalog;
    while i > 0
      invariant 0 <= i <= |catalog|
      invariant checksum == NO_CHECKSUM
      invariant RemoteChecksum(catalog, name) == RemoteChecksum(catalog[..i], name)
      decreases i
    {
      if name in catalog[i - 1] {
        checksum := catalog[i - 1][name];
        return;
      }
      assert catalog[..i][..i - 1] == catalog[..i - 1];
      i := i - 1;
    }
  }

  /** What a save attempt reports: the two exceptions saveImpl throws, or normal completion. */
  datatype Outcome =
    | LocalFileMissing(message: string)
    | IntegrityMismatch(message: string)
    | Verified
    | Skipped     // completed, but the upload could not be validated (a warning is logged)

  function MissingFileMessage(localPath: string): string
  {
    "Error uploading file! File \"" + localPath + "\" does not exist!"
  }

  const MISMATCH_MESSAGE := "Upload failed! An error occurred during file upload."

  /**
   * The verification step: a readable file with a remote checksum other
   * than "0" is compared by its MD5 hex digest; otherwise validation is skipped.
   */
  function Verify(readable: bool, remoteChecksum: string, localMd5Hex: string): (o: Outcome)
    ensures o.IntegrityMismatch? <==>
      readable && remoteChecksum != NO_CHECKSUM && localMd5Hex != remoteChecksum
    ensures o == Verified <==>
      readable && remoteChecksum != NO_CHECKSUM && localMd5Hex == remoteChecksum
    ensures o == Skipped <==> !readable || remoteChecksum == NO_CHECKSUM
  {
    if readable && remoteChecksum != NO_CHECKSUM then
      if localMd5Hex != remoteChecksum then IntegrityMismatch(MISMATCH_MESSAGE) else Verified
    else Skipped
  }

  /** The calls a file resource makes on its session (and erase() on itself). */
  datatype Event =
    | Upload(localPath: string, query: string)
    | CatalogGet(uri: string)
    | Erase(uri: string)
    | Download(localPath: string, uri: string)

  /** The local file as saveImpl finds it: exists(), open(ReadOnly), hex(MD5(readAll())). */
  datatype LocalFile = LocalFile(present: bool, readable: bool, md5Hex: string)

  datatype Trace = Trace(outcome: Outcome, events: seq<Event>)

  /** One save attempt: what it reports and which calls it makes, in order. */
  function SaveTrace(file: LocalFile, localPath: string, query: string, resourceUri: string,
                     parentUri: string, name: string, catalog: seq<Record>): Trace
  {
    if !file.present then Trace(LocalFileMissing(MissingFileMessage(localPath)), [])
    else
      var outcome := Verify(file.readable, RemoteChecksum(catalog, name), file.md5Hex);
      Trace(outcome, [Upload(localPath, query), CatalogGet(parentUri)]
                     + (if outcome.IntegrityMismatch? then [Erase(resourceUri)] else []))
  }

  /** A missing local file fails the save before any call on the session. */
  lemma MissingFileMakesNoCall(file: LocalFile, localPath: string, query: string, resourceUri: string,
                               parentUri: string, name: string, catalog: seq<Record>)
    requires !file.present
    ensures SaveTrace(file, localPath, query, resourceUri, parentUri, name, catalog)
      == Trace(LocalFileMissing(MissingFileMessage(localPath)), [])
  {
  }

  /** Otherwise the upload is the first call and made once, then the parent's catalog is fetched. */
  lemma UploadPrecedesCatalogFetch(file: LocalFile, localPath: string, query: string, resourceUri: string,
                                   parentUri: string, name: string, catalog: seq<Record>)
    requires file.present
    ensures var t := SaveTrace(file, localPath, query, resourceUri, parentUri, name, catalog);
      && |t.events| >= 2
      && t.events[0] == Upload(localPath, query)
      && t.events[1] == CatalogGet(parentUri)
      && forall i :: 1 <= i < |t.events| ==> !t.events[i].Upload?
  {
  }

  /**
   * The file is erased exactly when the save fails with a checksum mismatch:
   * once, after the upload and the catalog fetch; every other outcome erases nothing.
   */
  lemma EraseOnlyOnMismatch(file: LocalFile, localPath: string, query: string, resourceUri: string,
                            parentUri: string, name: string, catalog: seq<Record>)
    ensures var t := SaveTrace(file, localPath, query, resourceUri, parentUri, name, catalog);
      var remote := RemoteChecksum(catalog, name);
      && (t.outcome.IntegrityMismatch? <==>
            file.present && file.readable && remote != NO_CHECKSUM && file.md5Hex != remote)
      && (t.outcome.IntegrityMismatch? ==>
            t.events == [Upload(localPath, query), CatalogGet(parentUri), Erase(resourceUri)])
      && (!t.outcome.IntegrityMismatch? ==> forall i :: 0 <= i < |t.events| ==> !t.events[i].Erase?)
  {
  }

  /** A catalog without the file's checksum never blocks an upload of an existing file. */
  lemma MissingChecksumSkipsVerification(file: LocalFile, localPath: string, query: string,
                                         resourceUri: string, parentUri: string, name: string,
                                         catalog: seq<Record>)
    requires file.present
    requires forall i :: 0 <= i < |catalog| ==> name !in catalog[i]
    ensures SaveTrace(file, localPath, query, resourceUri, parentUri, name, catalog)
      == Trace(Skipped, [Upload(localPath, query), CatalogGet(parentUri)])
  {
    RemoteChecksumIsLastMatch(catalog, name);
  }
}
