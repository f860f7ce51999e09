/**
 * A file resource of an XNAT archive: its metadata lives in the object's
 * property store, its local path in a private field; saving it uploads the
 * local file and verifies the upload against the parent's catalog.
 *
 * The session's calls (upload, catalog fetch, download) and erase() are
 * recorded in the ghost log; what the session and the local file system
 * answer is passed in.
 */
module XnatFile {
  import opened PropertyStore
  import opened XnatUpload

  class FileResource {
    var props: Properties
    var localFilePath: string
    const schemaType: string
    /** resourceUri() of the parent resource. */
    const parentUri: string
    /** Whether the archive already holds this file (the object's exists()). */
    var existsRemotely: bool
    ghost var log: seq<Event>

    ghost predicate Valid()
      reads this
    {
      Ordered(props)
    }

    constructor (parentUri: string, schemaType: string, existsRemotely: bool)
      ensures Valid()
      ensures this.parentUri == parentUri && this.schemaType == schemaType
      ensures this.existsRemotely == existsRemotely
      ensures props == [] && localFilePath == "" && log == []
    {
      this.parentUri := parentUri;
      this.schemaType := schemaType;
      this.existsRemotely := existsRemotely;
      props := [];
      localFilePath := "";
      log := [];
    }

    function Property(key: string): string
      reads this
    {
      Lookup(props, key)
    }

    function Name(): string
      reads this
    {
      Property(FILE_NAME)
    }

    function FileFormat(): string
      reads this
    {
      Property(FILE_FORMAT)
    }

    function FileContent(): string
      reads this
    {
      Property(FILE_CONTENT)
    }

    function FileTags(): string
      reads this
    {
      Property(FILE_TAGS)
    }

    function ResourceUri(): string
      reads this
    {
      FileUri(parentUri, Name())
    }

    /** The object's setProperty: binds key in the store, leaving every other key as it was. */
    method SetProperty(key: string, value: string)
      requires Valid()
      modifies this`props
      ensures Valid()
      ensures AsMap(props) == old(AsMap(props))[key := value]
      ensures forall other :: Property(other) == if other == key then value else old(Property(other))
    {
      InsertOrdered(props, key, value);
      InsertAsMap(props, key, value);
      props := Insert(props, key, value);
    }

    method SetName(name: string)
      requires Valid()
      modifies this`props
      ensures Valid() && AsMap(props) == old(AsMap(props))[FILE_NAME := name]
      ensures Name() == name
      ensures FileFormat() == old(FileFormat()) && FileContent() == old(FileContent())
      ensures FileTags() == old(FileTags())
    {
      SetProperty(FILE_NAME, name);
    }

    method SetFileFormat(fileFormat: string)
      requires Valid()
      modifies this`props
      ensures Valid() && AsMap(props) == old(AsMap(props))[FILE_FORMAT := fileFormat]
      ensures FileFormat() == fileFormat
      ensures Name() == old(Name()) && FileContent() == old(FileContent())
      ensures FileTags() == old(FileTags())
    {
      SetProperty(FILE_FORMAT, fileFormat);
    }

    method SetFileContent(fileContent: string)
      requires Valid()
      modifies this`props
      ensures Valid() && AsMap(props) == old(AsMap(props))[FILE_CONTENT := fileContent]
      ensures FileContent() == fileContent
      ensures Name() == old(Name()) && FileFormat() == old(FileFormat())
      ensures FileTags() == old(FileTags())
    {
      SetProperty(FILE_CONTENT, fileContent);
    }

    method SetFileTags(fileTags: string)
      requires Valid()
      modifies this`props
      ensures Valid() && AsMap(props) == old(AsMap(props))[FILE_TAGS := fileTags]
      ensures FileTags() == fileTags
      ensures Name() == old(Name()) && FileFormat() == old(FileFormat())
      ensures FileContent() == old(FileContent())
    {
      SetProperty(FILE_TAGS, fileTags);
    }

    /** Changes the private path only; the property store is untouched. */
    method SetLocalFilePath(filePath: string)
      requires Valid()
      modifies this`localFilePath
      ensures Valid()
      ensures localFilePath == filePath
      ensures props == old(props)
    {
      localFilePath := filePath;
    }

    /** Downloads the file at ResourceUri() to filename, with no verification. */
    method Download(filename: string)
      requires Valid()
      modifies this`log
      ensures Valid()
      ensures log == old(log) + [XnatUpload.Download(filename, ResourceUri())]
    {
      log := log + [XnatUpload.Download(filename, ResourceUri())];
    }

    /** The query saveImpl sends with the upload, built by appending segment after segment. */
    method BuildQuery() returns (query: string)
      requires Valid()
      ensures query == Query(ResourceUri(), schemaType, props, existsRemotely)
    {
      var head := ResourceUri() + "?xsi:type=" + schemaType;
      query := AppendProperties(head);
      ghost var sent := Forwarded(props);
      var format, content, tags := Entry("format", FileFormat()), Entry("content", FileContent()), Entry("tags", FileTags());
      AppendSegment(query, head, sent, format);
      query, sent := query + Segment(format), sent + [format];
      AppendSegment(query, head, sent, content);
      query, sent := query + Segment(content), sent + [content];
      AppendSegment(query, head, sent, tags);
      query, sent := query + Segment(tags), sent + [tags];
      ghost var overwrite: seq<Entry> := if existsRemotely then [OVERWRITE] else [];
      if existsRemotely {
        AppendSegment(query, head, sent, OVERWRITE);
        query, sent := query + Segment(OVERWRITE), sent + [OVERWRITE];
      } else {
        assert sent == sent + overwrite;
      }
      AppendSegment(query, head, sent, INBODY);
      query, sent := query + Segment(INBODY), sent + [INBODY];
      assert sent == QueryParameters(props, existsRemotely);
    }

    /**
     * The property loop of saveImpl: appends "&key=value" for every property
     * in iteration order, skipping the three reserved keys.
     */
    method AppendProperties(head: string) returns (query: string)
      ensures query == head + Segments(Forwarded(props))
    {
      query := head;
      ghost var sent: seq<Entry> := [];
      var i := 0;
      while i < |props|
        invariant 0 <= i <= |props|
        invariant sent == Forwarded(props[..i])
        invariant query == head + Segments(sent)
      {
        var e := props[i];
        assert props[..i + 1][..i] == props[..i];
        if !Reserved(e.key) {
          AppendSegment(query, head, sent, e);
          query := query + Segment(e);
          sent := sent + [e];
        }
        i := i + 1;
      }
      assert props[..i] == props;
    }

    /**
     * saveImpl: fails without a call when the local file is missing;
     * otherwise uploads, fetches the parent's catalog, and erases the
     * upload when its checksum differs from the local MD5 digest.
     */
    method Save(file: LocalFile, catalog: seq<Record>) returns (outcome: Outcome)
      requires Valid()
      modifies this`log
      ensures Valid()
      ensures var t := SaveTrace(file, localFilePath, Query(ResourceUri(), schemaType, props, existsRemotely),
                                 ResourceUri(), parentUri, Name(), catalog);
        outcome == t.outcome && log == old(log) + t.events
    {
      var filename := localFilePath;
      if !file.present {
        return LocalFileMissing(MissingFileMessage(filename));
      }
      var query := BuildQuery();
      log := log + [Upload(filename, query)];
      log := log + [CatalogGet(parentUri)];
      ghost var sent := [Upload(filename, query), CatalogGet(parentUri)];
      assert log == old(log) + sent;
      var remote := FindRemoteChecksum(catalog, Name());
      if file.readable && remote != NO_CHECKSUM {
        if file.md5Hex != remote {
          log := log + [Erase(ResourceUri())];
          assert log == old(log) + (sent + [Erase(ResourceUri())]);
          return IntegrityMismatch(MISMATCH_MESSAGE);
        }
        outcome := Verified;
      } else {
        outcome := Skipped;
      }
      assert sent + [] == sent;
    }
  }
}
