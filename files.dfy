/**
 * The input data set as the batch programs see it: the listing of a
 * resolution folder, each entry with what imread decodes from it.  Walking
 * the directory and decoding the files are I/O; their results are inputs here.
 */
module Files {
  import opened Grid
  import Cli

  /**
   * One directory entry of the input folder: its extension and what imread
   * decodes from it (an empty Mat when the file cannot be read).
   */
  datatype Entry = Entry(extension: string, decoded: Mat)

  /** The data set: the listings of the 512 and 1024 resolution folders. */
  datatype Dataset = Dataset(bucket512: seq<Entry>, bucket1024: seq<Entry>) {
    /** What imread guarantees of every image it decodes. */
    predicate Decodable() {
      && (forall k :: 0 <= k < |bucket512| ==> bucket512[k].decoded.WellFormed())
      && (forall k :: 0 <= k < |bucket1024| ==> bucket1024[k].decoded.WellFormed())
    }
  }

  /** The folder INPUT_PATH + resolution. */
  function Folder(ds: Dataset, resolution: nat): (entries: seq<Entry>)
    requires resolution in Cli.Resolutions
    ensures ds.Decodable() ==> forall k :: 0 <= k < |entries| ==> entries[k].decoded.WellFormed()
  {
    if resolution == 512 then ds.bucket512 else ds.bucket1024
  }
}
