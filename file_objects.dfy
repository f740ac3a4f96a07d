/**
 * The directory entries the file manager lists. Of the fields of a
 * `FileObject` fetched from the panel's API, the listing logic reads only the
 * React key, the name and whether the entry is a file; the others (mode, size,
 * mimetype, timestamps, ...) are not part of this model.
 */
module FileObjects {

  datatype FileObject = FileObject(key: string, name: string, isFile: bool)

  /** `files.map((file) => file.name)` */
  function Names(files: seq<FileObject>): (names: seq<string>)
    ensures |names| == |files|
    ensures forall i :: 0 <= i < |files| ==> names[i] == files[i].name
  {
    if files == [] then [] else Names(files[..|files| - 1]) + [files[|files| - 1].name]
  }

  /** No two entries at different positions share a name. */
  ghost predicate DistinctNames(files: seq<FileObject>) {
    forall i, j :: 0 <= i < |files| && 0 <= j < |files| && i != j ==> files[i].name != files[j].name
  }

  /** No entry has the same name as the entry right before it. */
  ghost predicate NoAdjacentRepeats(files: seq<FileObject>) {
    forall i, j :: 0 <= i < j < |files| && j == i + 1 ==> files[i].name != files[j].name
  }

  /**
   * Increasing positions, all below `last`, stay increasing when `last` is
   * appended, and `last` is not among them.
   */
  lemma AppendLastPosition(earlier: seq<nat>, last: nat, extra: seq<nat>)
    requires forall i, j :: 0 <= i < j < |earlier| ==> earlier[i] < earlier[j]
    requires forall i :: 0 <= i < |earlier| ==> earlier[i] < last
    requires extra == [] || extra == [last]
    ensures forall i, j :: 0 <= i < j < |earlier + extra| ==> (earlier + extra)[i] < (earlier + extra)[j]
    ensures last !in earlier
  {
  }
}
