/** The records kept by the server. */
module Models {
  import opened Encryption

  type FileId = nat
  type UserId = int
  type KeyId = nat
  type RequestId = string

  const NO_ID: FileId := 0

  datatype File = File(
    id: FileId,
    name: string,
    sha1: Hash,
    passwordHash: string,
    contentType: string,
    uploadRequestId: RequestId,
    expireAt: int,
    pendingDeletion: int,
    sizeBytes: int,
    uploadDate: int,
    downloadsRemaining: int,
    downloadCount: int,
    userId: UserId,
    encryption: EncryptionInfo,
    unlimitedDownloads: bool,
    unlimitedTime: bool)
  {
    predicate IsPendingForDeletion() {
      pendingDeletion != 0
    }

    /** True for end-to-end encryption, as this model has no cloud storage. */
    predicate RequiresClientDecryption() {
      encryption.isEncrypted && encryption.isEndToEndEncrypted
    }
  }

  datatype DownloadStatus = DownloadStatus(id: string, fileId: FileId, expireAt: int)

  datatype FileHeader = FileHeader(filename: string, contentType: string, size: int)

  datatype UploadParameters = UploadParameters(
    allowedDownloads: int,
    expiryTimestamp: int,
    unlimitedTime: bool,
    unlimitedDownload: bool,
    passwordHash: string,
    isEndToEndEncrypted: bool,
    userId: UserId,
    fileRequestId: string)

  /** What may be uploaded to a file request; 0 stands for unlimited. */
  datatype Limits = Limits(maxFiles: int, maxSize: int, expiry: int)

  datatype FileRequest = FileRequest(id: RequestId, userId: UserId, apiKey: KeyId, limits: Limits)

  predicate IsAllowedFileSize(maxFileSizeMB: int, size: int) {
    size <= maxFileSizeMB * 1024 * 1024
  }

  /** Expired by time or by download count. */
  predicate IsExpiredFile(file: File, now: int) {
    || (file.expireAt < now && !file.unlimitedTime)
    || (file.downloadsRemaining < 1 && !file.unlimitedDownloads)
  }

  /** A pending deletion has to be carried out. */
  predicate IsPendingToBeDeleted(file: File, now: int) {
    file.IsPendingForDeletion() && file.pendingDeletion < now
  }
}
