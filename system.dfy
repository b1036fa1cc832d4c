/**
 * The parts of the installer's plan the rules look at and may fix: the planned mount points
 * with their filesystems' mount options, and the kickstart package selection.
 */
module SystemState {

  /** storage.mountpoints: every planned mount point with its comma-separated mount options. */
  class Storage {
    var mountpoints: map<string, string>

    constructor (mountpoints: map<string, string>)
      ensures this.mountpoints == mountpoints
    {
      this.mountpoints := mountpoints;
    }
  }

  /** ksdata.packages: the packages to install and the packages to exclude, in order. */
  class PackageSelection {
    var packageList: seq<string>
    var excludedList: seq<string>

    constructor (packageList: seq<string>, excludedList: seq<string>)
      ensures this.packageList == packageList && this.excludedList == excludedList
    {
      this.packageList := packageList;
      this.excludedList := excludedList;
    }
  }
}
