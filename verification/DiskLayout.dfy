/** What every drive of the system is made of. */
module DiskLayout {
  const SECTOR := 512

  predicate IsSector<T>(s: seq<T>) { |s| == SECTOR }
}
