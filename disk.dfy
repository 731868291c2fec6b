/**
 * The part of the file system the formatter touches: PDF files, each
 * recorded by the input files whose pages it holds, and text files (the
 * `info.txt` ledgers and the `.jpl` metadata files) by their content.
 * Directories are not modelled.
 */
module Disk {

  datatype Disk = Disk(pdfs: map<string, seq<string>>, texts: map<string, string>)

  /** `Path(p).is_file()` */
  predicate IsFile(d: Disk, p: string) {
    p in d.pdfs || p in d.texts
  }

  /** The paths of all files. */
  function Files(d: Disk): (fs: set<string>)
    ensures forall p :: p in fs <==> IsFile(d, p)
  {
    d.pdfs.Keys + d.texts.Keys
  }
}
