/**
 * The older files handler, the one `cmd/server/main.go` constructs: list, upload and
 * delete, with the same storage-then-table ordering and status mapping as
 * the newer handler, but a record type without the `resume` column.
 */
module LegacyHandler {
  import opened Types
  import opened Policy
  import opened Http
  import opened ObjectStore
  import opened Repository

  /** The older package's record: the table's columns without `resume`. */
  datatype File = File(
    id: int,
    name: string,
    size: int,
    mimeType: string,
    objectKey: string,
    createdAt: int,
    updatedAt: int)

  /** A table row as the older package reads it. */
  function AsFile(r: FileRecord): File {
    File(r.id, r.name, r.size, r.mimeType, r.objectKey, r.createdAt, r.updatedAt)
  }

  /** A listing as the older package reads it, in the same order. */
  function AsFiles(s: seq<FileRecord>): (files: seq<File>)
    ensures |files| == |s|
    ensures forall i :: 0 <= i < |s| ==> files[i] == AsFile(s[i])
  {
    if s == [] then [] else [AsFile(s[0])] + AsFiles(s[1..])
  }

  class FileHandler {
    const repo: FileRepository
    const storage: Store

    ghost predicate Valid()
      reads this, repo
    {
      repo.Valid()
    }

    constructor (repo: FileRepository, storage: Store)
      ensures this.repo == repo && this.storage == storage
    {
      this.repo := repo;
      this.storage := storage;
    }

    /** GET: 200 with every file, newest first (an empty array, never null); 500 on any error. */
    method ListFiles(queryFails: bool, scanFails: set<int>, iterationFails: bool, writeFails: bool)
      returns (resp: Response<File>)
      requires Valid()
      ensures var listed := !queryFails && !iterationFails && forall id :: id in repo.rows ==> id !in scanFails;
        && (!listed ==> resp == Error(StatusInternalServerError, "list files"))
        && (listed && writeFails ==> resp == Error(StatusInternalServerError, "list files, json marshalling"))
        && (listed && !writeFails ==> resp == Response(StatusOK, Many(AsFiles(repo.Newest()))))
      ensures resp.status == StatusOK ==>
        resp.body.Many? &&
        var s := resp.body.items;
        forall i, j :: 0 <= i < j < |s| ==> s[i].createdAt > s[j].createdAt
      ensures resp.status == StatusOK && repo.rows == map[] ==> resp.body == Many([])
    {
      var files := repo.List(queryFails, scanFails, iterationFails);
      if files.Failure? {
        return Error(StatusInternalServerError, "list files");
      }
      var listed := files.value;
      if listed.Nil? {
        listed := Slice([]);
      }
      if writeFails {
        return Error(StatusInternalServerError, "list files, json marshalling");
      }
      resp := Response(StatusOK, Many(AsFiles(listed.elems)));
    }

    /**
     * POST: store the `file` part under a fresh key, then insert its row.
     * 400 without the part; 500 when the part cannot be opened or the upload
     * fails, and then no insert is attempted; 500 after a best-effort removal
     * of the same key when the insert fails, whatever that removal's outcome;
     * 201 with the new record otherwise.
     */
    method UploadFile(form: Option<FormFile>, openFails: bool, date: string, token: string,
                      uploadFails: bool, createFails: bool, cleanupFails: bool)
      returns (resp: Response<File>)
      requires Valid()
      modifies repo, storage
      ensures Valid()
      ensures form.None? ==>
        resp == Error(StatusBadRequest, "field 'file' is required") && unchanged(repo) && unchanged(storage)
      ensures form.Some? && openFails ==>
        resp == Error(StatusInternalServerError, "cannot open uploaded file") && unchanged(repo) && unchanged(storage)
      ensures form.Some? && !openFails ==>
        var part := form.value;
        var key := ObjectKey(date, token, part.filename);
        && (uploadFails ==>
              resp == Error(StatusInternalServerError, "upload to storage") && unchanged(repo) && unchanged(storage))
        && (!uploadFails && createFails ==>
              && resp == Error(StatusInternalServerError, "save file record")
              && unchanged(repo)
              && storage.objects == if cleanupFails then old(storage.objects)[key := part.content]
                                    else old(storage.objects) - {key})
        && (!uploadFails && !createFails ==>
              var rec := FileRecord(old(repo.nextId), part.filename, part.size,
                                    ContentTypeOrDefault(part.contentType), key,
                                    old(repo.clock), old(repo.clock), None);
              && resp == Response(StatusCreated, One(AsFile(rec)))
              && repo.rows == old(repo.rows)[rec.id := rec]
              && storage.objects == old(storage.objects)[key := part.content])
    {
      if form.None? {
        return Error(StatusBadRequest, "field 'file' is required");
      }
      var fileHeader := form.value;
      if openFails {
        return Error(StatusInternalServerError, "cannot open uploaded file");
      }
      var contentType := ContentTypeOrDefault(fileHeader.contentType);
      var objectKey := ObjectKey(date, token, fileHeader.filename);
      var stored := storage.Upload(objectKey, fileHeader.content, uploadFails);
      if stored.Failure? {
        return Error(StatusInternalServerError, "upload to storage");
      }
      var f := FileRecord(0, fileHeader.filename, fileHeader.size, contentType, objectKey, 0, 0, None);
      var created := repo.Create(f, createFails);
      if created.Failure? {
        var _ := storage.Delete(objectKey, cleanupFails);
        return Error(StatusInternalServerError, "save file record");
      }
      resp := Response(StatusCreated, One(AsFile(created.value)));
    }

    /**
     * DELETE: 400 for an unparsable id and 404 for a failed lookup, both
     * changing nothing; then storage strictly before the row: 500 with the
     * row intact, 500 with the object gone, or 204.
     */
    method DeleteFile(idParam: string, lookupFails: bool, storageFails: bool, deleteFails: bool)
      returns (resp: Response<File>)
      requires Valid()
      modifies repo, storage
      ensures Valid()
      ensures ParseInt64(idParam).None? ==>
        resp == Error(StatusBadRequest, "invalid file id") && unchanged(repo) && unchanged(storage)
      ensures ParseInt64(idParam).Some? ==>
        var id := ParseInt64(idParam).value;
        && (lookupFails || id !in old(repo.rows) ==>
              resp == Error(StatusNotFound, "file not found") && unchanged(repo) && unchanged(storage))
        && (!lookupFails && id in old(repo.rows) ==>
              var key := old(repo.rows)[id].objectKey;
              && (storageFails ==>
                    resp == Error(StatusInternalServerError, "delete from storage")
                    && unchanged(repo) && unchanged(storage))
              && (!storageFails && deleteFails ==>
                    resp == Error(StatusInternalServerError, "delete file record")
                    && unchanged(repo) && storage.objects == old(storage.objects) - {key}
                    && key !in storage.objects)
              && (!storageFails && !deleteFails ==>
                    resp == Response(StatusNoContent, Empty)
                    && repo.rows == old(repo.rows) - {id}
                    && storage.objects == old(storage.objects) - {key}))
    {
      var parsed := ParseInt64(idParam);
      if parsed.None? {
        return Error(StatusBadRequest, "invalid file id");
      }
      var id := parsed.value;
      var file := repo.GetByID(id, lookupFails);
      if file.Failure? {
        return Error(StatusNotFound, "file not found");
      }
      var removed := storage.Delete(file.value.objectKey, storageFails);
      if removed.Failure? {
        return Error(StatusInternalServerError, "delete from storage");
      }
      var deleted := repo.Delete(id, deleteFails);
      if deleted.Failure? {
        return Error(StatusInternalServerError, "delete file record");
      }
      resp := Response(StatusNoContent, Empty);
    }
  }
}
