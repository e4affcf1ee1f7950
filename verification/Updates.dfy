/** What the update engine reads and proposes: dependencies, releases, configuration. */
module Updates {
  import opened Packages

  datatype DepType = Runtime | Dev | Build | Peer | Optional

  datatype RangeStrategy = Auto | Pin | Bump | Replace | Widen

  datatype UpdateType = Rollback | Patch | Minor | Major

  datatype Release = Release(version: string, yanked: bool)

  datatype Dependency = Dependency(
    name: string,
    ecosystem: Ecosystem,
    currentValue: string,
    depType: DepType,
    filePath: string,
    versioning: string)

  datatype UpdateConfig = UpdateConfig(strategy: RangeStrategy, ignore: seq<string>, allowPrerelease: bool) {
    predicate IsIgnored(name: string) { name in ignore }
  }

  datatype DependencyUpdate = DependencyUpdate(
    dependency: Dependency,
    updateType: UpdateType,
    newValue: string,
    newVersion: string)
}
