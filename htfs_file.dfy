/**
 * The part of a holotree file record that the batching and hard-linking decisions read: size,
 * permission bits, symlink target and rewrite offsets. The record itself is defined in
 * htfs/directory.go, which is not part of this model; a file is a symlink when its target is
 * non-empty.
 */
module HtfsFile {
  datatype File = File(name: string, digest: string, size: int, mode: bv32, symlink: string, rewrite: seq<int>)

  predicate IsSymlink(f: File) { f.symlink != "" }
}
