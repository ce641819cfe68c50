// The error type shared by the distribution helpers (URL building,
// distribution parsing, binary validation). Paths are plain strings.
module DistributionErrors {
  datatype DistributionError =
    | BinaryNotFound(path: string)
    | InvalidFormat(detail: string)
    | ChecksumMismatch(filename: string)
    | MissingFile(path: string)
    | UrlError(message: string)
    | InvalidDistribution(value: string)
}
