/** What one request leaves behind besides its response: calls to the provider and audit records, in order
    (internal/audit/events.go, internal/provider/provider.go). */
module Audit {
  datatype Operation = ListShares | ListFolder | Download | DownloadFolderFile | Upload

  datatype Record =
    | AcceptTos(email: string, version: string)
    | ListedShares(email: string)
    | ListedFolder(email: string)
    | DownloadStart(email: string)
    | DownloadComplete(email: string, size: int)
    | UploadStart(email: string, filename: string, declared: int)
    | UploadComplete(email: string, filename: string, size: int)
    | AccessDenied(email: string, reason: string)
    | ShareExpired(email: string)

  datatype Entry = Call(operation: Operation, email: string) | Audited(record: Record)

  /** Provider failures as the handlers distinguish them; the last is every failure that is not an answer. */
  datatype ProviderError = ShareNotFound | Forbidden | ShareGone | UnexpectedStatus | Unreachable
}
