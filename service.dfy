/**
 * The file service: the coordinator that keeps the object store and the
 * metadata table in step across upload, listing, deletion and analysis.
 * Each external call's failure is an injected flag; the summariser is an
 * oracle passed to the call that uses it.
 */
module Service {
  import opened Types
  import opened Policy
  import opened ObjectStore
  import opened Repository

  /** The service's errors, one per step that can fail, wrapping the cause. */
  datatype Error =
    | ListFailed(repoCause: RepoError)          // list files
    | UploadFailed(storeCause: StoreError)      // upload to storage
    | SaveRecordFailed(repoCause: RepoError)    // save file record
    | FileNotFound(repoCause: RepoError)        // file not found
    | StorageDeleteFailed(storeCause: StoreError) // delete from storage
    | DeleteRecordFailed(repoCause: RepoError)  // delete file record
    | DownloadFailed(storeCause: StoreError)    // download from storage
    | ReadFailed                                // read file content
    | AnalyzeFailed(analysisCause: AnalysisError) // analyze file
    | SaveAnalysisFailed(repoCause: RepoError)  // save analysis result

  /**
   * The two stores agree: every row's object exists, and no two rows share
   * an object.
   */
  ghost predicate Consistent(objects: map<string, Bytes>, rows: map<int, FileRecord>) {
    && (forall id :: id in rows ==> rows[id].objectKey in objects)
    && (forall a, b :: a in rows && b in rows && a != b ==> rows[a].objectKey != rows[b].objectKey)
  }

  class FileService {
    const repo: FileRepository
    const storage: Store

    ghost predicate Valid()
      reads this, repo
    {
      repo.Valid()
    }

    /** Both stores agree (see `Consistent`). */
    ghost predicate Agrees()
      reads this, repo, storage
    {
      Consistent(storage.objects, repo.rows)
    }

    constructor (repo: FileRepository, storage: Store)
      ensures this.repo == repo && this.storage == storage
    {
      this.repo := repo;
      this.storage := storage;
    }

    /**
     * Lists every file, most recently created first; an empty table gives an
     * empty (non-nil) listing, and any repository error is passed on.
     */
    method ListFiles(queryFails: bool, scanFails: set<int>, iterationFails: bool)
      returns (r: Result<seq<FileRecord>, Error>)
      requires Valid()
      ensures r.Success? <==> !queryFails && !iterationFails && forall id :: id in repo.rows ==> id !in scanFails
      ensures queryFails ==> r == Failure(ListFailed(DbFailed))
      ensures !queryFails && (exists id :: id in repo.rows && id in scanFails) ==>
                r == Failure(ListFailed(ScanFailed))
      ensures !queryFails && (forall id :: id in repo.rows ==> id !in scanFails) && iterationFails ==>
                r == Failure(ListFailed(IterationFailed))
      ensures r.Success? ==> r.value == repo.Newest() && NewestFirst(r.value)
      ensures r.Success? ==> forall id :: id in repo.rows ==> repo.rows[id] in r.value
      ensures r.Success? && repo.rows == map[] ==> r.value == []
    {
      var files := repo.List(queryFails, scanFails, iterationFails);
      if files.Failure? {
        return Failure(ListFailed(files.error));
      }
      var listed := files.value;
      if listed.Nil? {
        listed := Slice([]);
      }
      r := Success(listed.elems);
    }

    /**
     * Uploads `content` under a fresh key, then records it. A failed upload
     * leaves everything as it was; a failed insert removes the object again
     * (best effort: the removal's own failure is ignored) and reports the
     * insert's error.
     */
    method UploadFile(filename: string, content: Bytes, size: int, contentType: string,
                      date: string, token: string,
                      uploadFails: bool, createFails: bool, cleanupFails: bool)
      returns (r: Result<FileRecord, Error>)
      requires Valid()
      modifies repo, storage
      ensures Valid()
      ensures r.Success? <==> !uploadFails && !createFails
      ensures uploadFails ==>
        r == Failure(UploadFailed(Unavailable)) && unchanged(repo) && unchanged(storage)
      ensures var key := ObjectKey(date, token, filename);
        !uploadFails && createFails ==>
          && r == Failure(SaveRecordFailed(DbFailed))
          && unchanged(repo)
          && storage.objects == if cleanupFails then old(storage.objects)[key := content]
                                else old(storage.objects) - {key}
      ensures var key := ObjectKey(date, token, filename);
        !uploadFails && createFails && !cleanupFails && key !in old(storage.objects) ==>
          storage.objects == old(storage.objects)
      ensures var key := ObjectKey(date, token, filename);
        r.Success? ==>
          && r.value == FileRecord(old(repo.nextId), filename, size, contentType, key,
                                   old(repo.clock), old(repo.clock), None)
          && r.value.id !in old(repo.rows)
          && repo.rows == old(repo.rows)[r.value.id := r.value]
          && storage.objects == old(storage.objects)[key := content]
          && key in storage.objects && storage.objects[key] == content
      ensures ObjectKey(date, token, filename) !in old(storage.objects) && old(Agrees()) ==> Agrees()
    {
      var key := ObjectKey(date, token, filename);
      var stored := storage.Upload(key, content, uploadFails);
      if stored.Failure? {
        return Failure(UploadFailed(stored.error));
      }
      var f := FileRecord(0, filename, size, contentType, key, 0, 0, None);
      var created := repo.Create(f, createFails);
      if created.Failure? {
        var _ := storage.Delete(key, cleanupFails);
        return Failure(SaveRecordFailed(created.error));
      }
      r := Success(created.value);
    }

    /**
     * Deletes file `id`: looks the row up, removes the object, then removes
     * the row. A failed lookup changes nothing; a failed object removal keeps
     * the row; a failed row removal comes after the object is already gone.
     */
    method DeleteFile(id: int, lookupFails: bool, storageFails: bool, deleteFails: bool)
      returns (r: Result<(), Error>)
      requires Valid()
      modifies repo, storage
      ensures Valid()
      ensures r.Success? <==> !lookupFails && old(id in repo.rows) && !storageFails && !deleteFails
      ensures lookupFails || id !in old(repo.rows) ==>
        && r == Failure(FileNotFound(if lookupFails then DbFailed else NoRows))
        && unchanged(repo) && unchanged(storage)
      ensures !lookupFails && id in old(repo.rows) && storageFails ==>
        && r == Failure(StorageDeleteFailed(Unavailable))
        && unchanged(repo) && unchanged(storage)
      ensures !lookupFails && id in old(repo.rows) && !storageFails && deleteFails ==>
        && r == Failure(DeleteRecordFailed(DbFailed))
        && unchanged(repo)
        && storage.objects == old(storage.objects) - {old(repo.rows)[id].objectKey}
      ensures r.Success? ==>
        && repo.rows == old(repo.rows) - {id}
        && storage.objects == old(storage.objects) - {old(repo.rows)[id].objectKey}
      ensures old(Agrees()) && (r.Success? || !r.error.DeleteRecordFailed?) ==> Agrees()
      ensures r.Failure? && r.error.DeleteRecordFailed? ==>
        id in repo.rows && repo.rows[id].objectKey !in storage.objects
    {
      var file := repo.GetByID(id, lookupFails);
      if file.Failure? {
        return Failure(FileNotFound(file.error));
      }
      var removed := storage.Delete(file.value.objectKey, storageFails);
      if removed.Failure? {
        return Failure(StorageDeleteFailed(removed.error));
      }
      var deleted := repo.Delete(id, deleteFails);
      if deleted.Failure? {
        return Failure(DeleteRecordFailed(deleted.error));
      }
      r := Success(());
    }

    /**
     * Summarises file `id`: looks the row up, downloads its object, hands the
     * first `MaxAnalysisContentLen` bytes to the summariser and stores the
     * summary as the row's `resume`. The object store never changes; on any
     * failure the table does not change either, and on success only `resume`
     * and `updatedAt` of row `id` do.
     */
    method AnalyzeFile(id: int, analyzer: Provider,
                       lookupFails: bool, downloadFails: bool, readFails: bool, updateFails: bool)
      returns (r: Result<FileRecord, Error>)
      requires Valid()
      modifies repo
      ensures Valid()
      ensures unchanged(storage)
      ensures r.Failure? ==> unchanged(repo)
      ensures lookupFails || id !in old(repo.rows) ==>
        r == Failure(FileNotFound(if lookupFails then DbFailed else NoRows))
      ensures !lookupFails && id in old(repo.rows) ==>
        var key := old(repo.rows)[id].objectKey;
        && (downloadFails || key !in storage.objects ==>
              r == Failure(DownloadFailed(if downloadFails then Unavailable else NoSuchKey)))
        && (!downloadFails && key in storage.objects ==>
              var summary := analyzer(AnalysisInput(storage.objects[key]));
              && (readFails ==> r == Failure(ReadFailed))
              && (!readFails && summary.Failure? ==> r == Failure(AnalyzeFailed(summary.error)))
              && (!readFails && summary.Success? && updateFails ==> r == Failure(SaveAnalysisFailed(DbFailed)))
              && (!readFails && summary.Success? && !updateFails ==>
                    && r == Success(old(repo.rows)[id].(resume := Some(summary.value), updatedAt := old(repo.clock)))
                    && repo.rows == old(repo.rows)[id := r.value]
                    && repo.clock == old(repo.clock) + 1))
      ensures r.Success? ==> r.value.objectKey == old(repo.rows)[id].objectKey
      ensures old(Agrees()) ==> Agrees()
    {
      var file := repo.GetByID(id, lookupFails);
      if file.Failure? {
        return Failure(FileNotFound(file.error));
      }
      var download := storage.Download(file.value.objectKey, downloadFails);
      if download.Failure? {
        return Failure(DownloadFailed(download.error));
      }
      if readFails {
        return Failure(ReadFailed);
      }
      var content := download.value;
      var textContent := AnalysisInput(content);
      var summary := analyzer(textContent);
      if summary.Failure? {
        return Failure(AnalyzeFailed(summary.error));
      }
      var updated := repo.UpdateResume(id, summary.value, updateFails);
      if updated.Failure? {
        return Failure(SaveAnalysisFailed(updated.error));
      }
      r := Success(updated.value);
    }
  }

  /** What a successful upload stored is what a download of its key returns. */
  method UploadRoundTrip(svc: FileService, filename: string, content: Bytes, size: int,
                         contentType: string, date: string, token: string)
    returns (uploaded: Result<FileRecord, Error>, downloaded: Result<Bytes, StoreError>)
    requires svc.Valid()
    modifies svc.repo, svc.storage
    ensures svc.Valid()
    ensures uploaded.Success? && downloaded == Success(content)
  {
    uploaded := svc.UploadFile(filename, content, size, contentType, date, token, false, false, false);
    downloaded := svc.storage.Download(uploaded.value.objectKey, false);
  }

  /**
   * After a failed insert whose compensation succeeded, the object written
   * for a fresh key no longer exists and no row was added.
   */
  method CompensationRemovesObject(svc: FileService, filename: string, content: Bytes, size: int,
                                   contentType: string, date: string, token: string)
    returns (uploaded: Result<FileRecord, Error>, downloaded: Result<Bytes, StoreError>)
    requires svc.Valid()
    modifies svc.repo, svc.storage
    ensures svc.Valid()
    ensures uploaded == Failure(SaveRecordFailed(DbFailed))
    ensures downloaded == Failure(NoSuchKey)
    ensures svc.repo.rows == old(svc.repo.rows)
    ensures ObjectKey(date, token, filename) !in old(svc.storage.objects) ==>
              svc.storage.objects == old(svc.storage.objects)
  {
    uploaded := svc.UploadFile(filename, content, size, contentType, date, token, false, true, false);
    downloaded := svc.storage.Download(ObjectKey(date, token, filename), false);
  }

  /** After a successful delete both the row and the object are gone. */
  method DeleteRemovesBoth(svc: FileService, id: int)
    returns (deleted: Result<(), Error>, lookup: Result<FileRecord, RepoError>,
             downloaded: Result<Bytes, StoreError>)
    requires svc.Valid() && id in svc.repo.rows
    modifies svc.repo, svc.storage
    ensures svc.Valid()
    ensures deleted.Success?
    ensures lookup == Failure(NoRows)
    ensures downloaded == Failure(NoSuchKey)
  {
    var key := svc.repo.rows[id].objectKey;
    deleted := svc.DeleteFile(id, false, false, false);
    lookup := svc.repo.GetByID(id, false);
    downloaded := svc.storage.Download(key, false);
  }

  /**
   * Deleting the same id twice in a row: the first call succeeds and the
   * second reports that the file was not found, touching nothing.
   */
  method DeleteTwice(svc: FileService, id: int) returns (first: Result<(), Error>, second: Result<(), Error>)
    requires svc.Valid() && id in svc.repo.rows
    modifies svc.repo, svc.storage
    ensures svc.Valid()
    ensures first.Success?
    ensures second == Failure(FileNotFound(NoRows))
  {
    first := svc.DeleteFile(id, false, false, false);
    second := svc.DeleteFile(id, false, false, false);
  }

  /**
   * Analysing a file twice keeps its object key and its stored bytes; the
   * second record differs from the first only in `resume` and `updatedAt`.
   */
  method AnalyzeTwiceKeepsStorage(svc: FileService, id: int, first: Provider, second: Provider)
    returns (r1: Result<FileRecord, Error>, r2: Result<FileRecord, Error>)
    requires svc.Valid()
    modifies svc.repo
    ensures svc.Valid()
    ensures unchanged(svc.storage)
    ensures r1.Success? && r2.Success? ==>
      && id in old(svc.repo.rows)
      && r1.value.objectKey == r2.value.objectKey == old(svc.repo.rows)[id].objectKey
      && r2.value == r1.value.(resume := r2.value.resume, updatedAt := r2.value.updatedAt)
      && r1.value.updatedAt < r2.value.updatedAt
      && svc.repo.rows == old(svc.repo.rows)[id := r2.value]
  {
    r1 := svc.AnalyzeFile(id, first, false, false, false, false);
    r2 := svc.AnalyzeFile(id, second, false, false, false, false);
  }

  /** A missing id fails delete and analysis alike with "not found", touching neither store. */
  method MissingIdNotFound(svc: FileService, id: int, analyzer: Provider)
    returns (deleted: Result<(), Error>, analyzed: Result<FileRecord, Error>)
    requires svc.Valid() && id !in svc.repo.rows
    modifies svc.repo, svc.storage
    ensures deleted == Failure(FileNotFound(NoRows)) && analyzed == Failure(FileNotFound(NoRows))
    ensures unchanged(svc.repo) && unchanged(svc.storage)
  {
    deleted := svc.DeleteFile(id, false, false, false);
    analyzed := svc.AnalyzeFile(id, analyzer, false, false, false, false);
  }
}
