/** The live settings object `CONFIG` that the back end reads its paths from.
    Only the storage path changes at run time (when a new storage device is
    chosen); loading the settings file is outside the model. */
module Config {

  class Settings {
    /** `LIB_PATH`: the library root on the storage device, empty when none is chosen. */
    var libPath: string
    /** `UPLOADS_PATH`: where received uploads are written first. */
    const uploadsPath: string
    /** `FILE_STRUCTURE`: the folders a library root must contain. */
    const fileStructure: seq<string>
    /** `COVERS_URL`: the base URL of the cover images. */
    const coversUrl: string

    constructor (libPath: string, uploadsPath: string, fileStructure: seq<string>, coversUrl: string)
      ensures this.libPath == libPath && this.uploadsPath == uploadsPath
      ensures this.fileStructure == fileStructure && this.coversUrl == coversUrl
    {
      this.libPath := libPath;
      this.uploadsPath := uploadsPath;
      this.fileStructure := fileStructure;
      this.coversUrl := coversUrl;
    }
  }
}
