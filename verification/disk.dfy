/** The upload folder: blob bytes under their storage names. */
module Disk {

  type Byte = bv8
  type Blob = seq<Byte>

  /** The files under the storage root, by file name. */
  class BlobStore {
    var blobs: map<string, Blob>

    constructor ()
      ensures blobs == map[]
    {
      blobs := map[];
    }

    /** `Files.copy(..., REPLACE_EXISTING)`: write a blob, overwriting any file of that name. */
    method Copy(name: string, content: Blob)
      modifies this
      ensures blobs == old(blobs)[name := content]
    {
      blobs := blobs[name := content];
    }

    /** `Files.deleteIfExists` / `File.delete` when it succeeds: a missing file is not an error. */
    method DeleteIfExists(name: string)
      modifies this
      ensures blobs == old(blobs) - {name}
    {
      blobs := blobs - {name};
    }
  }
}
