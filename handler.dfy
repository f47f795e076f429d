/**
 * The files module's HTTP handler. It talks to the table and the store
 * directly (not through the service) and maps each outcome to a status.
 * It also offers analysis at upload time: upload, summarise, then insert.
 */
module Handler {
  import opened Types
  import opened Policy
  import opened Http
  import opened ObjectStore
  import opened Repository

  class FileHandler {
    const repo: FileRepository
    const storage: Store

    ghost predicate Valid()
      reads this, repo
    {
      repo.Valid()
    }

    constructor (repo: FileRepository, storage: Store)
      ensures this.repo == repo && this.storage == storage
    {
      this.repo := repo;
      this.storage := storage;
    }

    /** GET: 200 with every file, newest first (an empty array, never null); 500 on any error. */
    method ListFiles(queryFails: bool, scanFails: set<int>, iterationFails: bool, writeFails: bool)
      returns (resp: Response<FileRecord>)
      requires Valid()
      ensures var listed := !queryFails && !iterationFails && forall id :: id in repo.rows ==> id !in scanFails;
        && (!listed ==> resp == Error(StatusInternalServerError, "list files"))
        && (listed && writeFails ==> resp == Error(StatusInternalServerError, "list files, json marshalling"))
        && (listed && !writeFails ==> resp == Response(StatusOK, Many(repo.Newest())))
      ensures resp.status == StatusOK ==> resp.body.Many? && NewestFirst(resp.body.items)
      ensures resp.status == StatusOK && repo.rows == map[] ==> resp.body == Many([])
    {
      var files := repo.List(queryFails, scanFails, iterationFails);
      if files.Failure? {
        return Error(StatusInternalServerError, "list files");
      }
      var listed := files.value;
      if listed.Nil? {
        listed := Slice([]);
      }
      if writeFails {
        return Error(StatusInternalServerError, "list files, json marshalling");
      }
      resp := Response(StatusOK, Many(listed.elems));
    }

    /**
     * POST: store the `file` part under a fresh key, then insert its row.
     * 400 without the part, 500 when the part cannot be opened or the upload
     * fails (nothing changes), 500 after a best-effort removal of the object
     * when the insert fails, 201 with the new record otherwise.
     */
    method UploadFile(form: Option<FormFile>, openFails: bool, date: string, token: string,
                      uploadFails: bool, createFails: bool, cleanupFails: bool)
      returns (resp: Response<FileRecord>)
      requires Valid()
      modifies repo, storage
      ensures Valid()
      ensures form.None? ==>
        resp == Error(StatusBadRequest, "field 'file' is required") && unchanged(repo) && unchanged(storage)
      ensures form.Some? && openFails ==>
        resp == Error(StatusInternalServerError, "cannot open uploaded file") && unchanged(repo) && unchanged(storage)
      ensures form.Some? && !openFails ==>
        var part := form.value;
        var key := ObjectKey(date, token, part.filename);
        && (uploadFails ==>
              resp == Error(StatusInternalServerError, "upload to storage") && unchanged(repo) && unchanged(storage))
        && (!uploadFails && createFails ==>
              && resp == Error(StatusInternalServerError, "save file record")
              && unchanged(repo)
              && storage.objects == if cleanupFails then old(storage.objects)[key := part.content]
                                    else old(storage.objects) - {key})
        && (!uploadFails && !createFails ==>
              var rec := FileRecord(old(repo.nextId), part.filename, part.size,
                                    ContentTypeOrDefault(part.contentType), key,
                                    old(repo.clock), old(repo.clock), None);
              && resp == Response(StatusCreated, One(rec))
              && repo.rows == old(repo.rows)[rec.id := rec]
              && storage.objects == old(storage.objects)[key := part.content])
    {
      if form.None? {
        return Error(StatusBadRequest, "field 'file' is required");
      }
      var fileHeader := form.value;
      if openFails {
        return Error(StatusInternalServerError, "cannot open uploaded file");
      }
      var contentType := ContentTypeOrDefault(fileHeader.contentType);
      var objectKey := ObjectKey(date, token, fileHeader.filename);
      var stored := storage.Upload(objectKey, fileHeader.content, uploadFails);
      if stored.Failure? {
        return Error(StatusInternalServerError, "upload to storage");
      }
      var f := FileRecord(0, fileHeader.filename, fileHeader.size, contentType, objectKey, 0, 0, None);
      var created := repo.Create(f, createFails);
      if created.Failure? {
        var _ := storage.Delete(objectKey, cleanupFails);
        return Error(StatusInternalServerError, "save file record");
      }
      resp := Response(StatusCreated, One(created.value));
    }

    /**
     * DELETE: 400 for an id that is not a 64-bit integer and 404 for any
     * failed lookup, both changing nothing; then the object is removed before
     * the row: 500 with the row intact when the object removal fails, 500
     * with the object gone when the row removal fails, 204 otherwise.
     */
    method DeleteFile(idParam: string, lookupFails: bool, storageFails: bool, deleteFails: bool)
      returns (resp: Response<FileRecord>)
      requires Valid()
      modifies repo, storage
      ensures Valid()
      ensures ParseInt64(idParam).None? ==>
        resp == Error(StatusBadRequest, "invalid file id") && unchanged(repo) && unchanged(storage)
      ensures ParseInt64(idParam).Some? ==>
        var id := ParseInt64(idParam).value;
        && (lookupFails || id !in old(repo.rows) ==>
              resp == Error(StatusNotFound, "file not found") && unchanged(repo) && unchanged(storage))
        && (!lookupFails && id in old(repo.rows) ==>
              var key := old(repo.rows)[id].objectKey;
              && (storageFails ==>
                    resp == Error(StatusInternalServerError, "delete from storage")
                    && unchanged(repo) && unchanged(storage))
              && (!storageFails && deleteFails ==>
                    resp == Error(StatusInternalServerError, "delete file record")
                    && unchanged(repo) && storage.objects == old(storage.objects) - {key}
                    && key !in storage.objects)
              && (!storageFails && !deleteFails ==>
                    resp == Response(StatusNoContent, Empty)
                    && repo.rows == old(repo.rows) - {id}
                    && storage.objects == old(storage.objects) - {key}))
    {
      var parsed := ParseInt64(idParam);
      if parsed.None? {
        return Error(StatusBadRequest, "invalid file id");
      }
      var id := parsed.value;
      var file := repo.GetByID(id, lookupFails);
      if file.Failure? {
        return Error(StatusNotFound, "file not found");
      }
      var removed := storage.Delete(file.value.objectKey, storageFails);
      if removed.Failure? {
        return Error(StatusInternalServerError, "delete from storage");
      }
      var deleted := repo.Delete(id, deleteFails);
      if deleted.Failure? {
        return Error(StatusInternalServerError, "delete file record");
      }
      resp := Response(StatusNoContent, Empty);
    }

    /**
     * POST analyze: read the `file` part fully, store it under a fresh key,
     * summarise its first `MaxAnalysisContentLen` bytes, then insert a row
     * carrying the summary. A failure before the upload changes nothing; a
     * failure of the summariser or of the insert removes the object again
     * (best effort) and inserts no row; success answers 201 with the record.
     */
    method AnalyzeFile(form: Option<FormFile>, openFails: bool, readFails: bool,
                       date: string, token: string, analyzer: Provider,
                       uploadFails: bool, createFails: bool, cleanupFails: bool)
      returns (resp: Response<FileRecord>)
      requires Valid()
      modifies repo, storage
      ensures Valid()
      ensures form.None? ==>
        resp == Error(StatusBadRequest, "field 'file' is required") && unchanged(repo) && unchanged(storage)
      ensures form.Some? && openFails ==>
        resp == Error(StatusInternalServerError, "cannot open uploaded file") && unchanged(repo) && unchanged(storage)
      ensures form.Some? && !openFails && readFails ==>
        resp == Error(StatusInternalServerError, "cannot read uploaded file") && unchanged(repo) && unchanged(storage)
      ensures form.Some? && !openFails && !readFails ==>
        var part := form.value;
        var key := ObjectKey(date, token, part.filename);
        var cleanedUp := if cleanupFails then old(storage.objects)[key := part.content]
                         else old(storage.objects) - {key};
        var summary := analyzer(AnalysisInput(part.content));
        && (uploadFails ==>
              resp == Error(StatusInternalServerError, "upload to storage") && unchanged(repo) && unchanged(storage))
        && (!uploadFails && summary.Failure? ==>
              resp == Error(StatusInternalServerError, "analyze file")
              && unchanged(repo) && storage.objects == cleanedUp)
        && (!uploadFails && summary.Success? && createFails ==>
              resp == Error(StatusInternalServerError, "save file record")
              && unchanged(repo) && storage.objects == cleanedUp)
        && (!uploadFails && summary.Success? && !createFails ==>
              var rec := FileRecord(old(repo.nextId), part.filename, part.size,
                                    ContentTypeOrDefault(part.contentType), key,
                                    old(repo.clock), old(repo.clock), Some(summary.value));
              && resp == Response(StatusCreated, One(rec))
              && repo.rows == old(repo.rows)[rec.id := rec]
              && storage.objects == old(storage.objects)[key := part.content])
    {
      if form.None? {
        return Error(StatusBadRequest, "field 'file' is required");
      }
      var fileHeader := form.value;
      if openFails {
        return Error(StatusInternalServerError, "cannot open uploaded file");
      }
      if readFails {
        return Error(StatusInternalServerError, "cannot read uploaded file");
      }
      var content := fileHeader.content;
      var contentType := ContentTypeOrDefault(fileHeader.contentType);
      var objectKey := ObjectKey(date, token, fileHeader.filename);
      var stored := storage.Upload(objectKey, content, uploadFails);
      if stored.Failure? {
        return Error(StatusInternalServerError, "upload to storage");
      }
      var textContent := AnalysisInput(content);
      var resume := analyzer(textContent);
      if resume.Failure? {
        var _ := storage.Delete(objectKey, cleanupFails);
        return Error(StatusInternalServerError, "analyze file");
      }
      var f := FileRecord(0, fileHeader.filename, fileHeader.size, contentType, objectKey, 0, 0,
                          Some(resume.value));
      var created := repo.Create(f, createFails);
      if created.Failure? {
        var _ := storage.Delete(objectKey, cleanupFails);
        return Error(StatusInternalServerError, "save file record");
      }
      resp := Response(StatusCreated, One(created.value));
    }
  }
}
