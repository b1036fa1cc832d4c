/** The outcome of evaluating one rule: a severity and what the message is about. */
module Messages {

  datatype Severity = Info | Warning | Fatal

  /** The subject of each message text the engine produces (the wording itself is not modelled). */
  datatype Subject =
    | SeparatePartition(mountPoint: string)               // "<mp> must be on a separate partition or logical volume"
    | MountOptionAdded(option: string, mountPoint: string) // "mount option '<opt>' added for the mount point <mp>"
    | PasswordMinLength(minlen: int)                       // "make sure to create password with minimal length of <n> characters"
    | PackageAdded(package: string)                        // "package '<pkg>' has been added to the list of to be installed packages"
    | PackageExcluded(package: string)                     // "package '<pkg>' has been added to the list of excluded packages"

  datatype Message = Message(severity: Severity, subject: Subject)
}
